/**
 * What the text recognizer hands back: a list of observations, each with a
 * normalised bounding box (unit square, bottom-left origin) and its best
 * candidate string, if it has one (`topCandidates(1).first`).
 */
module Recognition {
  import opened Wrappers
  import opened Geometry
  import Select

  datatype Observation = Observation(topCandidate: Option<string>, boundingBox: Rect)

  /**
   * The outcome of a recognition request: an error or results of the wrong
   * type (`Failed`), or the observations.
   */
  datatype Outcome = Failed | Results(observations: seq<Observation>)

  predicate HasTop(o: Observation) {
    o.topCandidate.Some?
  }

  /** The observations that have a top candidate, in observation order. */
  function Recognised(obs: seq<Observation>): (r: seq<Observation>)
    ensures |r| <= |obs|
    ensures forall i :: 0 <= i < |r| ==> HasTop(r[i])
    ensures forall o :: o in r <==> o in obs && HasTop(o)
  {
    if obs == [] then []
    else (if HasTop(obs[0]) then [obs[0]] else []) + Recognised(obs[1..])
  }

  /** `compactMap { $0.topCandidates(1).first?.string }`. */
  function TopStrings(obs: seq<Observation>): (r: seq<string>)
    ensures |r| == Select.CountWhere(obs, HasTop)
    ensures forall s :: s in r <==> exists i :: 0 <= i < |obs| && obs[i].topCandidate == Some(s)
  {
    if obs == [] then []
    else
      var rest := TopStrings(obs[1..]);
      assert forall i :: 1 <= i < |obs| ==> obs[i] == obs[1..][i - 1];
      match obs[0].topCandidate
      case Some(s) => [s] + rest
      case None => rest
  }

  /** One observation contributes its top string, if it has one, and nothing else. */
  lemma TopStringsSingle(o: Observation)
    ensures TopStrings([o]) == (if HasTop(o) then [o.topCandidate.value] else [])
  {
    assert [o][1..] == [];
  }

  /**
   * Collecting distributes over a split of the observation list; with
   * `TopStringsSingle` this pins the result as the top strings in
   * observation order, each observation contributing at most one.
   */
  lemma {:induction false} TopStringsAppend(a: seq<Observation>, b: seq<Observation>)
    ensures TopStrings(a + b) == TopStrings(a) + TopStrings(b)
  {
    if a == [] {
      assert a + b == b;
    } else {
      assert (a + b)[0] == a[0] && (a + b)[1..] == a[1..] + b;
      TopStringsAppend(a[1..], b);
      if HasTop(a[0]) {
        Select.AppendAssoc([a[0].topCandidate.value], TopStrings(a[1..]), TopStrings(b));
      }
    }
  }

  /** The `i`-th top string is the top candidate of the `i`-th observation that has one. */
  lemma {:induction false} TopStringsRecognised(obs: seq<Observation>)
    ensures |TopStrings(obs)| == |Recognised(obs)|
    ensures forall i :: 0 <= i < |TopStrings(obs)| ==>
      TopStrings(obs)[i] == Recognised(obs)[i].topCandidate.value
  {
    if obs != [] {
      TopStringsRecognised(obs[1..]);
      TopStringsAppend([obs[0]], obs[1..]);
      TopStringsSingle(obs[0]);
      assert [obs[0]] + obs[1..] == obs;
    }
  }
}
