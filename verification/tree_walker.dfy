/**
 * `FlowyTreeWalker`: snapshots the visible view tree of a window into
 * `DomNode`s. A hidden, nearly transparent or empty view is dropped together
 * with everything below it; every other view becomes exactly one node whose
 * children are the captures of its subviews, in subview order.
 */
module TreeWalker {
  import opened Geometry
  import opened Models
  import opened Ui

  /** Views below this opacity are not captured. */
  const MinAlpha: real := 0.01

  predicate IsPruned(v: View) {
    v.isHidden || v.alpha < MinAlpha || IsEmpty(v.frame)
  }

  /** `capture(view:relativeTo:)`: no node for a pruned view, otherwise one node. */
  function Capture(v: View): (r: seq<DomNode>)
    ensures |r| <= 1
    ensures r == [] <==> IsPruned(v)
    ensures r != [] ==>
      && r[0].className == v.className
      && r[0].frame == v.windowFrame
      && r[0].accessibilityIdentifier == v.accessibilityIdentifier
      && r[0].isUserInteractionEnabled == v.isUserInteractionEnabled
      && Children(r[0]) == CaptureAll(v.subviews)
      && (r[0].subviews.NoSubviews? <==> CaptureAll(v.subviews) == [])
  {
    if IsPruned(v) then []
    else
      var children := CaptureAll(v.subviews);
      [DomNode(v.className, v.windowFrame, v.accessibilityIdentifier, v.isUserInteractionEnabled,
               if children == [] then NoSubviews else Subviews(children))]
  }

  /** The captures of a list of sibling views, concatenated in order. */
  function CaptureAll(vs: seq<View>): (r: seq<DomNode>)
    ensures |r| <= |vs|
  {
    if vs == [] then [] else Capture(vs[0]) + CaptureAll(vs[1..])
  }

  /** `captureHierarchy(in:)`: the capture of the window itself. */
  function CaptureHierarchy(window: View): (r: seq<DomNode>)
    ensures |r| <= 1
    ensures r != [] ==> r[0].className == window.className && r[0].frame == window.windowFrame
    ensures ForestCount(r) <= ViewCount(window)
  {
    CaptureCount(window);
    VisibleCountBound(window);
    Capture(window)
  }

  /** Views that survive pruning: a pruned view takes its whole subtree with it. */
  function VisibleCount(v: View): nat {
    if IsPruned(v) then 0 else 1 + VisibleCountAll(v.subviews)
  }

  function VisibleCountAll(vs: seq<View>): nat {
    if vs == [] then 0 else VisibleCount(vs[0]) + VisibleCountAll(vs[1..])
  }

  /** The snapshot has exactly one node per surviving view. */
  lemma {:induction false} CaptureCount(v: View)
    ensures ForestCount(Capture(v)) == VisibleCount(v)
  {
    CaptureAllCount(v.subviews);
    if !IsPruned(v) {
      var n := Capture(v)[0];
      assert Capture(v) == [n];
      assert ForestCount([n]) == NodeCount(n) by {
        assert [n][1..] == [];
      }
    }
  }

  lemma {:induction false} CaptureAllCount(vs: seq<View>)
    ensures ForestCount(CaptureAll(vs)) == VisibleCountAll(vs)
  {
    if vs != [] {
      CaptureCount(vs[0]);
      CaptureAllCount(vs[1..]);
      ForestCountAppend(Capture(vs[0]), CaptureAll(vs[1..]));
    }
  }

  /** Pruning never adds views. */
  lemma {:induction false} VisibleCountBound(v: View)
    ensures VisibleCount(v) <= ViewCount(v)
  {
    VisibleCountAllBound(v.subviews);
  }

  lemma {:induction false} VisibleCountAllBound(vs: seq<View>)
    ensures VisibleCountAll(vs) <= ViewsCount(vs)
  {
    if vs != [] {
      VisibleCountBound(vs[0]);
      VisibleCountAllBound(vs[1..]);
    }
  }
}
