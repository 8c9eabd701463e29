/**
 * `FlowyScreenReader`: collects the visible texts of a view tree as
 * candidates, names a screen by an ordered cascade of rules (container
 * delegation, titles, content heuristics, keywords, class name) and finds
 * the section header just above a view.
 */
module ScreenReader {
  import opened Wrappers
  import Geometry
  import opened Text
  import opened Ui
  import Select

  /** Views deeper than this are not read. */
  const MaxDepth: nat := 15

  /** The traversal stops adding texts once it holds this many. */
  const MaxCandidates: nat := 30

  /** Views below this opacity are skipped together with their subviews. */
  const MinReadableAlpha: real := 0.1

  /** A visible text: trimmed, its top edge in window coordinates, and whether it looks like a header. */
  datatype TextCandidate = TextCandidate(text: string, yPosition: real, isHeader: bool)

  /** `getText(from:)`: the text a view shows, by kind. */
  function GetText(c: Content): (r: Option<string>)
    ensures c.Label? ==> r == c.text
    ensures c.Button? ==> r == c.normalTitle
    ensures c.TextField? ==> r == (if c.text.Some? then c.text else c.placeholder)
    ensures c.TextView? ==> r == c.text
    ensures c.OtherView? ==> r.None?
  {
    match c
    case Label(text, _, _) => text
    case Button(title) => title
    case TextField(text, placeholder) => if text.Some? then text else placeholder
    case TextView(text) => text
    case OtherView => None
  }

  /**
   * `isValidText(_:)`: non-empty, holds a letter or digit, and has at least
   * two characters. The emptiness test is subsumed by the length test.
   */
  function IsValidText(t: string): (r: bool)
    ensures r <==> |t| >= 2 && exists i :: 0 <= i < |t| && IsAlphanumeric(t[i])
  {
    t != [] && (exists i :: 0 <= i < |t| && IsAlphanumeric(t[i])) && |t| >= 2
  }

  /**
   * Single characters and texts without a letter or digit are noise; a
   * purely numeric text of two or more digits is kept, since digits are
   * alphanumerics.
   */
  lemma ValidTextExamples()
    ensures !IsValidText("") && !IsValidText("A") && !IsValidText("--")
    ensures IsValidText("OK") && IsValidText("42")
  {
    assert IsAlphanumeric("OK"[0]);
    assert IsAlphanumeric("42"[0]);
  }

  /** A bold label, or a label whose font is larger than 17 points. */
  predicate IsHeaderContent(c: Content) {
    c.Label? && (c.isBold || c.pointSize > 17.0)
  }

  /** The candidate a single view contributes, if its trimmed text is valid. */
  function Own(v: View): (r: seq<TextCandidate>)
    ensures |r| <= 1
    ensures r != [] ==>
      && GetText(v.content).Some?
      && r[0].text == Trim(GetText(v.content).value, IsWhitespaceOrNewline)
      && IsValidText(r[0].text)
      && r[0].yPosition == Geometry.MinY(v.windowFrame)
      && r[0].isHeader == IsHeaderContent(v.content)
  {
    match GetText(v.content)
    case None => []
    case Some(text) =>
      var clean := Trim(text, IsWhitespaceOrNewline);
      if IsValidText(clean) then [TextCandidate(clean, Geometry.MinY(v.windowFrame), IsHeaderContent(v.content))]
      else []
  }

  predicate IsSkipped(v: View) {
    v.isHidden || v.alpha < MinReadableAlpha
  }

  /**
   * `traverse(view:depth:results:)`: `acc` is the `inout` result list. The
   * walk returns at once when it is too deep, already full, or at a skipped
   * view; otherwise it adds the view's own candidate and walks the subviews.
   */
  function Traverse(v: View, depth: nat, acc: seq<TextCandidate>): (r: seq<TextCandidate>)
    ensures acc <= r
    ensures |acc| <= MaxCandidates ==> |r| <= MaxCandidates
  {
    if depth > MaxDepth || |acc| >= MaxCandidates || IsSkipped(v) then acc
    else TraverseAll(v.subviews, depth + 1, acc + Own(v))
  }

  function TraverseAll(vs: seq<View>, depth: nat, acc: seq<TextCandidate>): (r: seq<TextCandidate>)
    ensures acc <= r
    ensures |acc| <= MaxCandidates ==> |r| <= MaxCandidates
  {
    if vs == [] then acc else TraverseAll(vs[1..], depth, Traverse(vs[0], depth, acc))
  }

  /**
   * Reference reading without the cap: every candidate of the readable part
   * of the tree, in pre-order. Nothing below depth 15 and nothing under a
   * skipped view contributes.
   */
  function Collect(v: View, depth: nat): (r: seq<TextCandidate>)
    ensures depth > MaxDepth || IsSkipped(v) ==> r == []
    ensures forall c :: c in r ==> IsValidText(c.text)
  {
    if depth > MaxDepth || IsSkipped(v) then []
    else Own(v) + CollectAll(v.subviews, depth + 1)
  }

  function CollectAll(vs: seq<View>, depth: nat): (r: seq<TextCandidate>)
    ensures forall c :: c in r ==> IsValidText(c.text)
  {
    if vs == [] then [] else Collect(vs[0], depth) + CollectAll(vs[1..], depth)
  }

  /** The capped traversal is the uncapped reading, cut at 30 candidates. */
  lemma {:induction false} TraverseIsCappedCollect(v: View, depth: nat, acc: seq<TextCandidate>)
    requires |acc| <= MaxCandidates
    ensures Traverse(v, depth, acc) == Select.Take(acc + Collect(v, depth), MaxCandidates)
  {
    if depth > MaxDepth || IsSkipped(v) {
      assert acc + [] == acc;
    } else if |acc| < MaxCandidates {
      var own, below := Own(v), CollectAll(v.subviews, depth + 1);
      TraverseAllIsCappedCollect(v.subviews, depth + 1, acc + own);
      Select.AppendAssoc(acc, own, below);
    }
  }

  lemma {:induction false} TraverseAllIsCappedCollect(vs: seq<View>, depth: nat, acc: seq<TextCandidate>)
    requires |acc| <= MaxCandidates
    ensures TraverseAll(vs, depth, acc) == Select.Take(acc + CollectAll(vs, depth), MaxCandidates)
  {
    if vs == [] {
      assert acc + [] == acc;
    } else {
      var first, rest := Collect(vs[0], depth), CollectAll(vs[1..], depth);
      TraverseIsCappedCollect(vs[0], depth, acc);
      TraverseAllIsCappedCollect(vs[1..], depth, Traverse(vs[0], depth, acc));
      Select.TakeAppendTake(acc + first, rest, MaxCandidates);
      Select.AppendAssoc(acc, first, rest);
    }
  }

  /**
   * `extractVisibleText(from:)`: the first 30 readable candidates in
   * pre-order, each trimmed and valid.
   */
  function ExtractVisibleText(root: View): (r: seq<TextCandidate>)
    ensures |r| <= MaxCandidates
    ensures r == Select.Take(Collect(root, 0), MaxCandidates)
    ensures forall c :: c in r ==> IsValidText(c.text)
  {
    TraverseIsCappedCollect(root, 0, []);
    assert [] + Collect(root, 0) == Collect(root, 0);
    Traverse(root, 0, [])
  }

  /** The sixteen keywords of the dominant-content rule, in the order they are tried. */
  const Keywords: seq<string> := [
    "Login", "Accedi", "Sign In", "Registrati", "Sign Up", "Home", "Dashboard", "Profilo",
    "Profile", "Impostazioni", "Settings", "Carrello", "Cart", "Checkout", "Ordine", "Order"
  ]

  /** The name the timers heuristic gives. */
  const TimersName := "Timers List"

  predicate MentionsMin(c: TextCandidate) {
    Contains(c.text, "min")
  }

  predicate IsHeaderCandidate(c: TextCandidate) {
    c.isHeader
  }

  function YPosition(c: TextCandidate): real {
    c.yPosition
  }

  /** The text equals one of the keywords, ignoring case. */
  predicate IsExactKeyword(c: TextCandidate) {
    exists k :: 0 <= k < |Keywords| && EqualsIgnoringCase(c.text, Keywords[k])
  }

  /** The text contains one of the keywords, ignoring case, and is shorter than 30 characters. */
  predicate IsShortPartialKeyword(c: TextCandidate) {
    (exists k :: 0 <= k < |Keywords| && ContainsIgnoringCase(c.text, Keywords[k])) && |c.text| < 30
  }

  /**
   * The header with the smallest `yPosition` (the topmost), the earliest on
   * ties: `filter { $0.isHeader }.sorted { $0.yPosition < $1.yPosition }.first`.
   */
  function TopHeader(cands: seq<TextCandidate>): (r: Option<string>)
    ensures r.None? <==> forall c :: c in cands ==> !c.isHeader
    ensures r.Some? ==>
      var headers := Select.Filter(cands, IsHeaderCandidate);
      exists k :: 0 <= k < |headers| && headers[k].text == r.value
        && (forall j :: 0 <= j < |headers| ==> YPosition(headers[k]) <= YPosition(headers[j]))
        && (forall j :: 0 <= j < k ==> YPosition(headers[k]) < YPosition(headers[j]))
  {
    var headers := Select.Filter(cands, IsHeaderCandidate);
    if headers == [] then None
    else
      assert headers[0] in headers;
      var key := YPosition;
      var k := Select.ArgMinFirst(headers, key);
      forall j | 0 <= j < |headers|
        ensures YPosition(headers[k]) <= YPosition(headers[j])
      {
        assert key(headers[k]) <= key(headers[j]);
      }
      forall j | 0 <= j < k
        ensures YPosition(headers[k]) < YPosition(headers[j])
      {
        assert key(headers[k]) < key(headers[j]);
      }
      assert Select.Filter(cands, IsHeaderCandidate) == headers;
      assert
        exists i :: 0 <= i < |headers| && headers[i].text == headers[k].text
          && (forall j :: 0 <= j < |headers| ==> YPosition(headers[i]) <= YPosition(headers[j]))
          && (forall j :: 0 <= j < i ==> YPosition(headers[i]) < YPosition(headers[j]));
      Some(headers[k].text)
  }

  /**
   * Rule 3: the first candidate equal to a keyword, ignoring case; failing
   * that, the first shorter than 30 characters that contains one.
   */
  function KeywordMatch(cands: seq<TextCandidate>): (r: Option<string>)
    ensures r.None? <==> forall j :: 0 <= j < |cands| ==> !IsExactKeyword(cands[j]) && !IsShortPartialKeyword(cands[j])
    ensures (exists j :: 0 <= j < |cands| && IsExactKeyword(cands[j])) ==>
      exists k :: 0 <= k < |cands| && IsExactKeyword(cands[k]) && r == Some(cands[k].text)
        && forall j :: 0 <= j < k ==> !IsExactKeyword(cands[j])
    ensures (forall j :: 0 <= j < |cands| ==> !IsExactKeyword(cands[j])) && r.Some? ==>
      exists k :: 0 <= k < |cands| && IsShortPartialKeyword(cands[k]) && r == Some(cands[k].text)
        && forall j :: 0 <= j < k ==> !IsShortPartialKeyword(cands[j])
  {
    var e := Select.FirstWhere(cands, IsExactKeyword);
    if e >= 0 then Some(cands[e].text)
    else
      var p := Select.FirstWhere(cands, IsShortPartialKeyword);
      if p >= 0 then Some(cands[p].text) else None
  }

  /**
   * Rules 1.5 and 3 over the extracted candidates: more than two texts with
   * `min` name a timers list; otherwise the topmost header; otherwise a
   * keyword match. `None` hands over to the class-name fallback.
   */
  function FromContent(cands: seq<TextCandidate>): (r: Option<string>)
    ensures Select.CountWhere(cands, MentionsMin) > 2 ==> r == Some(TimersName)
    ensures r.Some? && r.value != TimersName ==> exists c :: c in cands && c.text == r.value
    ensures Select.CountWhere(cands, MentionsMin) <= 2 && (exists c :: c in cands && c.isHeader) ==>
      r == TopHeader(cands)
    ensures Select.CountWhere(cands, MentionsMin) <= 2 && (forall c :: c in cands ==> !c.isHeader) ==>
      r == KeywordMatch(cands)
  {
    if Select.CountWhere(cands, MentionsMin) > 2 then Some(TimersName)
    else
      match TopHeader(cands)
      case Some(h) =>
        var headers := Select.Filter(cands, IsHeaderCandidate);
        var k :| 0 <= k < |headers| && headers[k].text == h;
        assert headers[k] in headers;
        Some(h)
      case None => KeywordMatch(cands)
  }

  /** A title source that holds a non-empty string. */
  predicate Present(t: Option<string>) {
    t.Some? && t.value != []
  }

  /** Rule 1: the controller's own title, unless it is "Back". */
  predicate OwnTitleApplies(t: Titles) {
    Present(t.title) && t.title.value != "Back"
  }

  /**
   * The first title rule that applies to a controller, if any: the
   * controller's title, then the navigation item's title, then the
   * navigation bar's top item title, then the title view's label text.
   */
  function FromTitles(t: Titles): (r: Option<string>)
    ensures r.Some? ==> r.value != []
    ensures OwnTitleApplies(t) ==> r == t.title
    ensures !OwnTitleApplies(t) && Present(t.navigationItemTitle) ==> r == t.navigationItemTitle
    ensures !OwnTitleApplies(t) && !Present(t.navigationItemTitle) && Present(t.navigationBarTopItemTitle) ==>
      r == t.navigationBarTopItemTitle
    ensures (!OwnTitleApplies(t) && !Present(t.navigationItemTitle) && !Present(t.navigationBarTopItemTitle)
             && Present(t.titleViewLabelText)) ==> r == t.titleViewLabelText
    ensures r.None? <==>
      && !OwnTitleApplies(t)
      && !Present(t.navigationItemTitle)
      && !Present(t.navigationBarTopItemTitle)
      && !Present(t.titleViewLabelText)
  {
    if t.title.Some? && t.title.value != [] && t.title.value != "Back" then t.title
    else if t.navigationItemTitle.Some? && t.navigationItemTitle.value != [] then t.navigationItemTitle
    else if t.navigationBarTopItemTitle.Some? && t.navigationBarTopItemTitle.value != [] then t.navigationBarTopItemTitle
    else if t.titleViewLabelText.Some? && t.titleViewLabelText.value != [] then t.titleViewLabelText
    else None
  }

  /**
   * Rule 0: the child a container hands the question to: a split
   * controller's last child, a navigation controller's top controller, a tab
   * bar controller's selected controller. A container without that child,
   * or a plain controller, answers for itself.
   */
  function Delegate(vc: Controller): (r: ChildController)
    ensures r.Child? ==> r.controller < vc
    ensures vc.container.Split? ==>
      var children := vc.container.viewControllers;
      r == (if children != [] then Child(children[|children| - 1]) else NoController)
    ensures vc.container.Navigation? ==> r == vc.container.topViewController
    ensures vc.container.TabBar? ==> r == vc.container.selectedViewController
    ensures vc.container.NotContainer? ==> r.NoController?
  {
    match vc.container
    case Split(children) => if children != [] then Child(children[|children| - 1]) else NoController
    case Navigation(top) => top
    case TabBar(selected) => selected
    case NotContainer => NoController
  }

  /** Rules 1 to 4 for a controller that does not delegate. */
  function DeduceOwn(vc: Controller): (r: string)
    ensures FromTitles(vc.titles).Some? ==> r == FromTitles(vc.titles).value
    ensures FromTitles(vc.titles).None? && FromContent(ExtractVisibleText(vc.view)).Some? ==>
      r == FromContent(ExtractVisibleText(vc.view)).value
    ensures FromTitles(vc.titles).None? && FromContent(ExtractVisibleText(vc.view)).None? ==> r == vc.className
  {
    match FromTitles(vc.titles)
    case Some(t) => t
    case None =>
      match FromContent(ExtractVisibleText(vc.view))
      case Some(t) => t
      case None => vc.className
  }

  /** The controller the delegation chain ends at. */
  function Resolve(vc: Controller): (r: Controller)
    ensures Delegate(r).NoController?
    decreases vc
  {
    match Delegate(vc)
    case Child(c) => Resolve(c)
    case NoController => vc
  }

  /**
   * `deduceScreenName(viewController:)`. Delegation comes before every other
   * rule: the name is the one the controller at the end of the chain gets
   * from its own titles, content and class.
   */
  function Deduce(vc: Controller): (r: string)
    ensures r == DeduceOwn(Resolve(vc))
    decreases vc
  {
    match Delegate(vc)
    case Child(c) => Deduce(c)
    case NoController => DeduceOwn(vc)
  }

  /**
   * The name of a screen is one of: a title of the controller the chain ends
   * at, `Timers List`, one of its visible texts, or its class name.
   */
  lemma NameProvenance(vc: Controller)
    ensures var leaf := Resolve(vc); var name := Deduce(vc);
      || name == FromTitles(leaf.titles).GetOr([])
      || name == TimersName
      || (exists c :: c in ExtractVisibleText(leaf.view) && c.text == name)
      || name == leaf.className
  {
  }

  /** Once a title applies, the view's content cannot change the name. */
  lemma TitleMasksContent(vc: Controller, view: View)
    requires Delegate(vc).NoController? && FromTitles(vc.titles).Some?
    ensures Deduce(vc.(view := view)) == Deduce(vc)
  {
  }

  /** A header below another: the filter `findSectionHeader` applies, with the 5 and 400 point bounds. */
  predicate IsNearHeaderAbove(c: TextCandidate, viewMinY: real) {
    c.yPosition < viewMinY - 5.0 && viewMinY - c.yPosition < 400.0 && c.isHeader
  }

  function NegY(c: TextCandidate): real {
    -c.yPosition
  }

  /**
   * `findSectionHeader(for:in:)`: among the root's candidates that are
   * headers more than 5 and less than 400 points above the view's top edge,
   * the lowest one (closest to the view).
   */
  function FindSectionHeader(viewFrame: Geometry.Rect, root: View): (r: Option<string>)
    ensures var minY := Geometry.MinY(viewFrame);
      var cands := ExtractVisibleText(root);
      && (r.None? <==> forall c :: c in cands ==> !IsNearHeaderAbove(c, minY))
      && (r.Some? ==>
            exists c :: c in cands && IsNearHeaderAbove(c, minY) && c.text == r.value
              && forall d :: d in cands && IsNearHeaderAbove(d, minY) ==> d.yPosition <= c.yPosition)
  {
    var minY := Geometry.MinY(viewFrame);
    var valid := Select.Filter(ExtractVisibleText(root), c => IsNearHeaderAbove(c, minY));
    if valid == [] then None
    else
      var k := Select.ArgMinFirst(valid, NegY);
      assert valid[k] in valid;
      assert forall d :: d in valid ==> exists j :: 0 <= j < |valid| && valid[j] == d;
      Some(valid[k].text)
  }
}
