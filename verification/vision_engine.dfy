/**
 * `FlowyVisionEngine`: picks the recognised string under a tap, and lists
 * every recognised string of a screen. The recognizer itself is an input
 * (`Recognition.Outcome`); only the selection logic is modelled.
 *
 * The source compares `sqrt`-distances. Distances are never negative, so
 * `sqrt(a) < sqrt(b)` is `a < b`, and `sqrt(a) < 100 * scale` is
 * `100 * scale > 0 && a < (100 * scale)^2`; the model compares squares.
 */
module VisionEngine {
  import opened Wrappers
  import opened Geometry
  import opened Recognition

  /** Pixel dimensions of the bitmap behind a snapshot (`cgImage.width/height`). */
  datatype PixelSize = PixelSize(width: nat, height: nat)

  /** A `UIImage`: its bitmap, if it has one, and its point-to-pixel scale. */
  datatype Snapshot = Snapshot(cgImage: Option<PixelSize>, scale: real)

  /** Pixels added on every side of a text box for the tolerant hit test. */
  const HitMargin: real := 10.0

  /** Divisor applied to the distance of a tap inside the grown box. */
  const InsideDiscount: real := 100.0

  /** Largest accepted distance, in points. */
  const RadiusPoints: real := 100.0

  function CanvasOf(p: PixelSize): Size {
    Size(p.width as real, p.height as real)
  }

  /** The tap converted from points to pixels. */
  function ScaledTap(tap: Point, scale: real): Point {
    Point(tap.x * scale, tap.y * scale)
  }

  function SqDist(a: Point, b: Point): (d: real)
    ensures d >= 0.0
  {
    var dx, dy := a.x - b.x, a.y - b.y;
    assert dx * dx >= 0.0 && dy * dy >= 0.0;
    dx * dx + dy * dy
  }

  /** The observation's box in pixel space, top-left origin. */
  function PixelRect(o: Observation, canvas: Size): Rect
    requires canvas.width >= 0.0 && canvas.height >= 0.0
  {
    FlipBox(o.boundingBox, canvas)
  }

  /** The tap falls inside the box grown by `HitMargin` pixels per side. */
  predicate IsInsideHit(o: Observation, tapPx: Point, canvas: Size)
    requires canvas.width >= 0.0 && canvas.height >= 0.0
  {
    Contains(Outset(PixelRect(o, canvas), HitMargin), tapPx)
  }

  /** Square of `finalDistance`: the centre distance, divided by 100 for an inside hit. */
  function FinalSq(o: Observation, tapPx: Point, canvas: Size): (d: real)
    requires canvas.width >= 0.0 && canvas.height >= 0.0
    ensures d >= 0.0
  {
    var sq := SqDist(Center(PixelRect(o, canvas)), tapPx);
    var discount := InsideDiscount * InsideDiscount;
    assert discount == 10000.0;
    if IsInsideHit(o, tapPx, canvas) then sq / discount else sq
  }

  /** `finalDistance < 100 * scale`, the initial `minDistance`. */
  predicate WithinRadius(d: real, scale: real) {
    RadiusPoints * scale > 0.0 && d < (RadiusPoints * scale) * (RadiusPoints * scale)
  }

  /**
   * Observation `k` is the one the selection loop keeps: it has a top
   * candidate, lies within the radius, no candidate is closer, and every
   * earlier candidate is strictly farther.
   */
  predicate IsWinner(obs: seq<Observation>, k: int, tapPx: Point, canvas: Size, scale: real)
    requires canvas.width >= 0.0 && canvas.height >= 0.0
  {
    && 0 <= k < |obs|
    && HasTop(obs[k])
    && WithinRadius(FinalSq(obs[k], tapPx, canvas), scale)
    && (forall j :: 0 <= j < |obs| && HasTop(obs[j]) ==>
          FinalSq(obs[k], tapPx, canvas) <= FinalSq(obs[j], tapPx, canvas))
    && (forall j :: 0 <= j < k && HasTop(obs[j]) ==>
          FinalSq(obs[k], tapPx, canvas) < FinalSq(obs[j], tapPx, canvas))
  }

  /** There is at most one winner. */
  lemma WinnerUnique(obs: seq<Observation>, k1: int, k2: int, tapPx: Point, canvas: Size, scale: real)
    requires canvas.width >= 0.0 && canvas.height >= 0.0
    requires IsWinner(obs, k1, tapPx, canvas, scale) && IsWinner(obs, k2, tapPx, canvas, scale)
    ensures k1 == k2
  {
  }

  /**
   * The loop of `processTap` over the observations as written, returning the
   * index it keeps: the smallest final distance, the earliest on ties.
   */
  method SelectObservationAsWritten(obs: seq<Observation>, tapPx: Point, canvas: Size, scale: real)
    returns (best: Option<nat>)
    requires canvas.width >= 0.0 && canvas.height >= 0.0
    ensures best.Some? ==> IsWinner(obs, best.value, tapPx, canvas, scale)
    ensures best.None? <==>
      forall j :: 0 <= j < |obs| && HasTop(obs[j]) ==> !WithinRadius(FinalSq(obs[j], tapPx, canvas), scale)
  {
    best := None;
    var bestSq := 0.0;
    for i := 0 to |obs|
      invariant best.None? ==>
        forall j :: 0 <= j < i && HasTop(obs[j]) ==> !WithinRadius(FinalSq(obs[j], tapPx, canvas), scale)
      invariant best.Some? ==>
        && best.value < i
        && HasTop(obs[best.value])
        && bestSq == FinalSq(obs[best.value], tapPx, canvas)
        && WithinRadius(bestSq, scale)
        && (forall j :: 0 <= j < i && HasTop(obs[j]) ==> bestSq <= FinalSq(obs[j], tapPx, canvas))
        && (forall j :: 0 <= j < best.value && HasTop(obs[j]) ==> bestSq < FinalSq(obs[j], tapPx, canvas))
    {
      if !HasTop(obs[i]) {
        continue;
      }
      var d := FinalSq(obs[i], tapPx, canvas);
      if (best.None? && WithinRadius(d, scale)) || (best.Some? && d < bestSq) {
        best := Some(i);
        bestSq := d;
      }
    }
  }

  /**
   * The discrepancy: the discount does not make every inside hit beat every
   * outside hit. On a 4000 by 1000 bitmap at scale 1, a tap at (100, 500)
   * lies inside a wide box centred 1700 pixels away (final distance 17) and
   * just outside a narrow box centred 14 pixels away (final distance 14);
   * the outside box wins.
   */
  lemma OutsideHitBeatsInsideHit()
    ensures var obs := [Observation(Some("Save changes"), Rect(0.0, 0.4, 0.9, 0.2)),
                        Observation(Some("i"), Rect(0.02775, 0.49, 0.0015, 0.02))];
      var tapPx, canvas := Point(100.0, 500.0), Size(4000.0, 1000.0);
      && IsInsideHit(obs[0], tapPx, canvas) && WithinRadius(FinalSq(obs[0], tapPx, canvas), 1.0)
      && !IsInsideHit(obs[1], tapPx, canvas)
      && IsWinner(obs, 1, tapPx, canvas, 1.0)
  {
    var obs := [Observation(Some("Save changes"), Rect(0.0, 0.4, 0.9, 0.2)),
                Observation(Some("i"), Rect(0.02775, 0.49, 0.0015, 0.02))];
    var tapPx, canvas := Point(100.0, 500.0), Size(4000.0, 1000.0);
    assert PixelRect(obs[0], canvas) == Rect(0.0, 400.0, 3600.0, 200.0);
    assert PixelRect(obs[1], canvas) == Rect(111.0, 490.0, 6.0, 20.0);
    assert FinalSq(obs[0], tapPx, canvas) == 289.0;
    assert FinalSq(obs[1], tapPx, canvas) == 196.0;
  }

  /** Whether the tap is inside the grown box, as a rank: inside hits come first. */
  function HitRank(o: Observation, tapPx: Point, canvas: Size): nat
    requires canvas.width >= 0.0 && canvas.height >= 0.0
  {
    if IsInsideHit(o, tapPx, canvas) then 0 else 1
  }

  /** `a` is preferred to `b`: an inside hit over an outside one, otherwise the smaller final distance. */
  predicate Beats(a: Observation, b: Observation, tapPx: Point, canvas: Size)
    requires canvas.width >= 0.0 && canvas.height >= 0.0
  {
    HitRank(a, tapPx, canvas) < HitRank(b, tapPx, canvas)
    || (HitRank(a, tapPx, canvas) == HitRank(b, tapPx, canvas) && FinalSq(a, tapPx, canvas) < FinalSq(b, tapPx, canvas))
  }

  /** An observation the loop may keep: it has a top candidate and lies within the radius. */
  predicate Eligible(o: Observation, tapPx: Point, canvas: Size, scale: real)
    requires canvas.width >= 0.0 && canvas.height >= 0.0
  {
    HasTop(o) && WithinRadius(FinalSq(o, tapPx, canvas), scale)
  }

  /**
   * Observation `k` is the one the selection keeps when inside hits come
   * first: it is eligible, no eligible observation beats it, and it beats
   * every earlier eligible one.
   */
  predicate IsPreferred(obs: seq<Observation>, k: int, tapPx: Point, canvas: Size, scale: real)
    requires canvas.width >= 0.0 && canvas.height >= 0.0
  {
    && 0 <= k < |obs|
    && Eligible(obs[k], tapPx, canvas, scale)
    && (forall j :: 0 <= j < |obs| && Eligible(obs[j], tapPx, canvas, scale) ==> !Beats(obs[j], obs[k], tapPx, canvas))
    && (forall j :: 0 <= j < k && Eligible(obs[j], tapPx, canvas, scale) ==> Beats(obs[k], obs[j], tapPx, canvas))
  }

  /**
   * The selection loop with the preference its comment states: any inside
   * hit beats any outside hit, and distance decides within each group. The
   * kept observation is an inside hit exactly when some eligible one is.
   */
  method SelectObservation(obs: seq<Observation>, tapPx: Point, canvas: Size, scale: real)
    returns (best: Option<nat>)
    requires canvas.width >= 0.0 && canvas.height >= 0.0
    ensures best.Some? ==> IsPreferred(obs, best.value, tapPx, canvas, scale)
    ensures best.None? <==> forall j :: 0 <= j < |obs| ==> !Eligible(obs[j], tapPx, canvas, scale)
    ensures best.Some? ==>
      (IsInsideHit(obs[best.value], tapPx, canvas) <==>
        exists j :: 0 <= j < |obs| && Eligible(obs[j], tapPx, canvas, scale) && IsInsideHit(obs[j], tapPx, canvas))
  {
    best := None;
    for i := 0 to |obs|
      invariant best.None? ==> forall j :: 0 <= j < i ==> !Eligible(obs[j], tapPx, canvas, scale)
      invariant best.Some? ==>
        && best.value < i
        && Eligible(obs[best.value], tapPx, canvas, scale)
        && (forall j :: 0 <= j < i && Eligible(obs[j], tapPx, canvas, scale) ==> !Beats(obs[j], obs[best.value], tapPx, canvas))
        && (forall j :: 0 <= j < best.value && Eligible(obs[j], tapPx, canvas, scale) ==> Beats(obs[best.value], obs[j], tapPx, canvas))
    {
      if Eligible(obs[i], tapPx, canvas, scale) && (best.None? || Beats(obs[i], obs[best.value], tapPx, canvas)) {
        best := Some(i);
      }
    }
    if best.Some? {
      forall j | 0 <= j < |obs| && Eligible(obs[j], tapPx, canvas, scale) && IsInsideHit(obs[j], tapPx, canvas)
        ensures IsInsideHit(obs[best.value], tapPx, canvas)
      {
        assert !Beats(obs[j], obs[best.value], tapPx, canvas);
      }
    }
  }

  /**
   * `processTap(snapshot:tapPoint:completion:)` as written: the string the
   * completion receives. No bitmap or a failed recognition gives `None`;
   * otherwise the observation the loop keeps supplies the text.
   */
  method ProcessTap(snapshot: Snapshot, tap: Point, outcome: Outcome) returns (text: Option<string>)
    ensures snapshot.cgImage.None? || outcome.Failed? ==> text.None?
    ensures text.Some? ==>
      && snapshot.cgImage.Some? && outcome.Results?
      && exists k :: IsWinner(outcome.observations, k, ScaledTap(tap, snapshot.scale),
                              CanvasOf(snapshot.cgImage.value), snapshot.scale)
                     && outcome.observations[k].topCandidate == text
    ensures snapshot.cgImage.Some? && outcome.Results? ==>
      (text.None? <==>
        forall j :: 0 <= j < |outcome.observations| && HasTop(outcome.observations[j]) ==>
          !WithinRadius(FinalSq(outcome.observations[j], ScaledTap(tap, snapshot.scale), CanvasOf(snapshot.cgImage.value)),
                        snapshot.scale))
  {
    if snapshot.cgImage.None? || outcome.Failed? {
      return None;
    }
    var canvas := CanvasOf(snapshot.cgImage.value);
    var best := SelectObservationAsWritten(outcome.observations, ScaledTap(tap, snapshot.scale), canvas, snapshot.scale);
    if best.None? {
      return None;
    }
    text := outcome.observations[best.value].topCandidate;
  }

  /**
   * `processTap` with the corrected selection: an eligible inside hit, when
   * there is one, supplies the text.
   */
  method ProcessTapCorrected(snapshot: Snapshot, tap: Point, outcome: Outcome) returns (text: Option<string>)
    ensures snapshot.cgImage.None? || outcome.Failed? ==> text.None?
    ensures text.Some? ==>
      && snapshot.cgImage.Some? && outcome.Results?
      && exists k :: IsPreferred(outcome.observations, k, ScaledTap(tap, snapshot.scale),
                                 CanvasOf(snapshot.cgImage.value), snapshot.scale)
                     && outcome.observations[k].topCandidate == text
    ensures snapshot.cgImage.Some? && outcome.Results? ==>
      (text.None? <==>
        forall j :: 0 <= j < |outcome.observations| ==>
          !Eligible(outcome.observations[j], ScaledTap(tap, snapshot.scale), CanvasOf(snapshot.cgImage.value), snapshot.scale))
  {
    if snapshot.cgImage.None? || outcome.Failed? {
      return None;
    }
    var canvas := CanvasOf(snapshot.cgImage.value);
    var best := SelectObservation(outcome.observations, ScaledTap(tap, snapshot.scale), canvas, snapshot.scale);
    if best.None? {
      return None;
    }
    text := outcome.observations[best.value].topCandidate;
  }

  /**
   * `scanScreen(snapshot:completion:)`: every top string, in observation
   * order, unfiltered (`TopStringsAppend` and `TopStringsSingle` pin that
   * order).
   */
  function ScanScreen(snapshot: Snapshot, outcome: Outcome): (strings: seq<string>)
    ensures snapshot.cgImage.None? || outcome.Failed? ==> strings == []
    ensures snapshot.cgImage.Some? && outcome.Results? ==> strings == TopStrings(outcome.observations)
    ensures snapshot.cgImage.Some? && outcome.Results? ==>
      |strings| == |TopStrings(outcome.observations)|
      && forall s :: s in strings <==> exists i :: 0 <= i < |outcome.observations|
                                              && outcome.observations[i].topCandidate == Some(s)
  {
    if snapshot.cgImage.None? || outcome.Failed? then []
    else TopStrings(outcome.observations)
  }
}
