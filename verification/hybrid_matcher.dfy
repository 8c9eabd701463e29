/**
 * `FlowyHybridMatcher`: finds the view under a point in a captured tree and
 * fuses a whole recognition result with the tree.
 */
module HybridMatcher {
  import opened Wrappers
  import opened Geometry
  import opened Models
  import opened Recognition
  import Select

  /**
   * The nested `traverse`: every node containing `p`, in pre-order, where the
   * children of a node are visited only when the node itself contains `p`.
   */
  function Candidates(nodes: seq<DomNode>, p: Point): (r: seq<DomNode>)
    ensures forall n :: n in r ==> Contains(n.frame, p) && n in Flatten(nodes)
    ensures forall i :: 0 <= i < |nodes| && Contains(nodes[i].frame, p) ==> nodes[i] in r
    ensures r == [] <==> forall i :: 0 <= i < |nodes| ==> !Contains(nodes[i].frame, p)
  {
    if nodes == [] then []
    else
      var n := nodes[0];
      var below := match n.subviews
                   case NoSubviews => []
                   case Subviews(cs) => Candidates(cs, p);
      var rest := Candidates(nodes[1..], p);
      assert forall i :: 1 <= i < |nodes| ==> nodes[i] == nodes[1..][i - 1];
      (if Contains(n.frame, p) then [n] + below else []) + rest
  }

  /** Candidate collection distributes over a split of the sibling list. */
  lemma {:induction false} CandidatesAppend(a: seq<DomNode>, b: seq<DomNode>, p: Point)
    ensures Candidates(a + b, p) == Candidates(a, p) + Candidates(b, p)
  {
    if a == [] {
      assert a + b == b;
    } else {
      var n := a[0];
      assert (a + b)[0] == n && (a + b)[1..] == a[1..] + b;
      CandidatesAppend(a[1..], b, p);
      var here := if Contains(n.frame, p) then [n] + (match n.subviews
                                                      case NoSubviews => []
                                                      case Subviews(cs) => Candidates(cs, p)) else [];
      Select.AppendAssoc(here, Candidates(a[1..], p), Candidates(b, p));
    }
  }

  /**
   * A node that misses the point contributes nothing, whatever its
   * descendants contain: with the previous lemma, every subtree below a
   * missing node is skipped wherever it sits in the list.
   */
  lemma MissedSubtreeContributesNothing(n: DomNode, p: Point)
    requires !Contains(n.frame, p)
    ensures Candidates([n], p) == []
  {
  }

  /**
   * Exactly the nodes reached through containing ancestors are collected: a
   * node is a candidate iff some top-level node contains the point and is
   * that node or has it among the candidates of its own children. Applied
   * level by level, every node whose ancestors all contain the point is
   * collected, and no other.
   */
  lemma {:induction false} CandidatesMember(nodes: seq<DomNode>, p: Point, m: DomNode)
    ensures m in Candidates(nodes, p) <==>
      exists i :: 0 <= i < |nodes| && Contains(nodes[i].frame, p)
        && (m == nodes[i] || m in Candidates(Children(nodes[i]), p))
  {
    if nodes != [] {
      CandidatesCons(nodes, p);
      CandidatesMember(nodes[1..], p, m);
      if m in Candidates(nodes[1..], p) {
        var j :| 0 <= j < |nodes[1..]| && Contains(nodes[1..][j].frame, p)
          && (m == nodes[1..][j] || m in Candidates(Children(nodes[1..][j]), p));
        assert nodes[j + 1] == nodes[1..][j];
      }
      if exists i :: 0 <= i < |nodes| && Contains(nodes[i].frame, p)
           && (m == nodes[i] || m in Candidates(Children(nodes[i]), p)) {
        var i :| 0 <= i < |nodes| && Contains(nodes[i].frame, p)
          && (m == nodes[i] || m in Candidates(Children(nodes[i]), p));
        if i > 0 {
          assert nodes[1..][i - 1] == nodes[i];
        }
      }
    }
  }

  /** One step of the traversal: the head and its collected children, then the siblings. */
  lemma CandidatesCons(nodes: seq<DomNode>, p: Point)
    requires nodes != []
    ensures Candidates(nodes, p)
      == (if Contains(nodes[0].frame, p) then [nodes[0]] + Candidates(Children(nodes[0]), p) else [])
         + Candidates(nodes[1..], p)
  {
  }

  predicate IsInteractive(n: DomNode) {
    n.isUserInteractionEnabled
  }

  function FrameArea(n: DomNode): real {
    Area(n.frame)
  }

  /** The interactive candidates, or all candidates when none is interactive. */
  function LookupList(candidates: seq<DomNode>): (r: seq<DomNode>)
    ensures forall n :: n in r ==> n in candidates
    ensures (exists n :: n in candidates && IsInteractive(n)) ==> forall n :: n in r ==> IsInteractive(n)
    ensures forall n :: n in candidates && IsInteractive(n) ==> n in r
    ensures (exists n :: n in candidates && IsInteractive(n)) ==> r == Select.Filter(candidates, IsInteractive)
    ensures (forall n :: n in candidates ==> !IsInteractive(n)) ==> r == candidates
    ensures r == [] <==> candidates == []
  {
    var interactive := Select.Filter(candidates, IsInteractive);
    assert interactive != [] ==> interactive[0] in interactive;
    if interactive == [] then candidates else interactive
  }

  /**
   * The smallest-area node of a list, the earliest when several share that
   * area (`sorted { area($0) < area($1) }.first` with a stable sort).
   */
  function Smallest(lookup: seq<DomNode>): (r: Option<DomNode>)
    ensures r.None? <==> lookup == []
    ensures r.Some? ==> r.value in lookup
    ensures r.Some? ==> forall n :: n in lookup ==> Area(r.value.frame) <= Area(n.frame)
    ensures r.Some? ==>
      exists k :: 0 <= k < |lookup| && lookup[k] == r.value
        && forall j :: 0 <= j < k ==> Area(r.value.frame) < Area(lookup[j].frame)
  {
    if lookup == [] then None
    else
      var k := Select.ArgMinFirst(lookup, FrameArea);
      assert forall n :: n in lookup ==> exists j :: 0 <= j < |lookup| && lookup[j] == n;
      Some(lookup[k])
  }

  /**
   * `findBestMatch(in:for:)`: among the views containing `p`, preferring
   * interactive ones, the one with the smallest area.
   */
  function FindBestMatch(nodes: seq<DomNode>, p: Point): (r: Option<DomNode>)
    ensures r.None? <==> forall i :: 0 <= i < |nodes| ==> !Contains(nodes[i].frame, p)
    ensures r.Some? ==> Contains(r.value.frame, p) && r.value in Flatten(nodes)
    ensures r.Some? ==> r.value in Candidates(nodes, p)
    ensures r.Some? && (exists n :: n in Candidates(nodes, p) && IsInteractive(n)) ==> IsInteractive(r.value)
    ensures r.Some? ==> forall n :: n in LookupList(Candidates(nodes, p)) ==> Area(r.value.frame) <= Area(n.frame)
  {
    Smallest(LookupList(Candidates(nodes, p)))
  }

  /** The name given to a text region that no captured view lies under. */
  const UnmatchedKind := "OCR_Text"

  /** The observation's box in window coordinates. */
  function TextFrame(o: Observation, windowSize: Size): Rect
    requires windowSize.width >= 0.0 && windowSize.height >= 0.0
  {
    FlipBox(o.boundingBox, windowSize)
  }

  /**
   * One merged element: the best view at the centre of the text frame,
   * carrying the recognised text, or a bare `OCR_Text` element with the text
   * frame when no top-level node contains the centre.
   */
  function MergeOne(nodes: seq<DomNode>, o: Observation, windowSize: Size): (e: HybridElement)
    requires o.topCandidate.Some?
    requires windowSize.width >= 0.0 && windowSize.height >= 0.0
    ensures e.ocrText == o.topCandidate
    ensures var c := Center(TextFrame(o, windowSize));
      (forall i :: 0 <= i < |nodes| ==> !Contains(nodes[i].frame, c)) ==>
        e == HybridElement(UnmatchedKind, o.topCandidate, None, TextFrame(o, windowSize))
    ensures var c := Center(TextFrame(o, windowSize));
      (exists i :: 0 <= i < |nodes| && Contains(nodes[i].frame, c)) ==>
        exists n :: n in Flatten(nodes) && Contains(n.frame, c)
          && e == HybridElement(n.className, o.topCandidate, n.accessibilityIdentifier, n.frame)
    ensures var c := Center(TextFrame(o, windowSize));
      FindBestMatch(nodes, c).Some? ==>
        var n := FindBestMatch(nodes, c).value;
        e == HybridElement(n.className, o.topCandidate, n.accessibilityIdentifier, n.frame)
  {
    var frame := TextFrame(o, windowSize);
    match FindBestMatch(nodes, Center(frame))
    case Some(m) => HybridElement(m.className, o.topCandidate, m.accessibilityIdentifier, m.frame)
    case None => HybridElement(UnmatchedKind, o.topCandidate, None, frame)
  }

  /**
   * `merge(dom:ocrResults:windowSize:)`: one element per observation that
   * has a top candidate, in observation order, the `i`-th merged from the
   * `i`-th such observation and carrying the `i`-th recognised string.
   */
  function Merge(nodes: seq<DomNode>, obs: seq<Observation>, windowSize: Size): (r: seq<HybridElement>)
    requires windowSize.width >= 0.0 && windowSize.height >= 0.0
    ensures |r| == |Recognised(obs)|
    ensures forall i :: 0 <= i < |r| ==> r[i] == MergeOne(nodes, Recognised(obs)[i], windowSize)
  {
    if obs == [] then []
    else
      var rest := Merge(nodes, obs[1..], windowSize);
      if obs[0].topCandidate.Some? then
        var e := MergeOne(nodes, obs[0], windowSize);
        var f := Recognised(obs);
        assert f[0] == obs[0] && f[1..] == Recognised(obs[1..]);
        var r := [e] + rest;
        assert r[0] == e && r[1..] == rest;
        r
      else
        assert Recognised(obs) == Recognised(obs[1..]);
        rest
  }

  /** The `i`-th merged element carries the `i`-th recognised string. */
  lemma MergeCarriesTopStrings(nodes: seq<DomNode>, obs: seq<Observation>, windowSize: Size)
    requires windowSize.width >= 0.0 && windowSize.height >= 0.0
    ensures |Merge(nodes, obs, windowSize)| == |TopStrings(obs)|
    ensures forall i :: 0 <= i < |TopStrings(obs)| ==>
      Merge(nodes, obs, windowSize)[i].ocrText == Some(TopStrings(obs)[i])
  {
    TopStringsRecognised(obs);
  }

  /** Merging distributes over a split of the observation list, so element order is observation order. */
  lemma {:induction false} MergeAppend(nodes: seq<DomNode>, a: seq<Observation>, b: seq<Observation>, windowSize: Size)
    requires windowSize.width >= 0.0 && windowSize.height >= 0.0
    ensures Merge(nodes, a + b, windowSize) == Merge(nodes, a, windowSize) + Merge(nodes, b, windowSize)
  {
    if a == [] {
      assert a + b == b;
    } else {
      assert (a + b)[0] == a[0] && (a + b)[1..] == a[1..] + b;
      MergeAppend(nodes, a[1..], b, windowSize);
      if a[0].topCandidate.Some? {
        Select.AppendAssoc([MergeOne(nodes, a[0], windowSize)], Merge(nodes, a[1..], windowSize), Merge(nodes, b, windowSize));
      }
    }
  }
}
