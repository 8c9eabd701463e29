/**
 * `FlowyUploader`: drains the session log and holds a background-execution
 * grant while doing so. The transport is simulated by a two-second sleep;
 * nothing is sent and the log is never cleared. Threads become one
 * sequential order of steps, with the order in which the upload's completion
 * and the grant's expiration happen as a parameter.
 */
module Uploader {
  import opened Wrappers
  import opened Models
  import opened Storage

  /** What `performUpload` does after reading the log, in order. */
  datatype Step = Sleep(seconds: real) | Complete

  /** The events `performUpload` read (empty when there were none) and what it did. */
  datatype Upload = Upload(drained: seq<Event>, steps: seq<Step>)

  /** The simulated network delay, in seconds. */
  const TransportDelay: real := 2.0

  function CompletionCount(steps: seq<Step>): nat {
    if steps == [] then 0 else (if steps[0].Complete? then 1 else 0) + CompletionCount(steps[1..])
  }

  /** The completion callback runs exactly once, as the final step. */
  predicate CompletesOnceAtEnd(steps: seq<Step>) {
    steps != [] && steps[|steps| - 1] == Complete && CompletionCount(steps) == 1
  }

  /**
   * `performUpload(completion:)`: with nothing to read (no file, a failed
   * read or an empty log) it completes at once; otherwise it sleeps for the
   * simulated transport and then completes. The store is only read.
   */
  function PerformUpload(s: Store, p: Platform, c: Codec): (r: Upload)
    ensures CompletesOnceAtEnd(r.steps)
    ensures r.drained == RetrieveAndClearLog(s, p, c).0.GetOr([])
    ensures r.drained == [] <==> r.steps == [Complete]
    ensures r.drained != [] ==> Sleep(TransportDelay) in r.steps
  {
    match RetrieveAndClearLog(s, p, c).0
    case None => Upload([], [Complete])
    case Some(events) =>
      if events == [] then Upload([], [Complete])
      else
        var steps := [Sleep(TransportDelay), Complete];
        assert steps[1..] == [Complete];
        Upload(events, steps)
  }

  /**
   * The uploader never clears the log, so a second upload, with no append in
   * between, drains the very same events again.
   */
  lemma RepeatedUploadRedrains(s: Store, p: Platform, c: Codec)
    ensures RetrieveAndClearLog(s, p, c).1 == s
    ensures PerformUpload(RetrieveAndClearLog(s, p, c).1, p, c).drained == PerformUpload(s, p, c).drained
  {
  }

  /** Events appended to a fresh log are exactly what the next upload drains. */
  lemma UploadDrainsAppended(p: Platform, c: Codec, es: seq<Event>)
    requires Lawful(c)
    requires p.hasDocuments && p.canWrite && p.canRead
    requires AllEncodable(c, es)
    ensures PerformUpload(AppendAll(Store(None), p, c, es), p, c).drained == es
  {
    FreshLogRoundTrip(p, c, es);
  }

  /** `UIBackgroundTaskIdentifier.invalid`. */
  const Invalid: nat := 0

  /** Calls into the background-task API, by grant identifier. */
  datatype GrantCall = Begin(id: nat) | End(id: nat)

  /**
   * The state shared by the handlers: the `TaskToken`'s identifier, whether
   * the system still holds the grant open, and the calls made so far.
   */
  datatype Grant = Grant(token: nat, open: bool, calls: seq<GrantCall>)

  /** How many `endBackgroundTask` calls a trace holds. */
  function Ends(calls: seq<GrantCall>): nat {
    if calls == [] then 0 else (if calls[0].End? then 1 else 0) + Ends(calls[1..])
  }

  lemma {:induction false} EndsAppend(a: seq<GrantCall>, b: seq<GrantCall>)
    ensures Ends(a + b) == Ends(a) + Ends(b)
  {
    if a == [] {
      assert a + b == b;
    } else {
      assert (a + b)[1..] == a[1..] + b;
      EndsAppend(a[1..], b);
    }
  }

  /** Every call of the trace names grant `id`. */
  predicate AllAbout(calls: seq<GrantCall>, id: nat) {
    forall i :: 0 <= i < |calls| ==> calls[i].id == id
  }

  /**
   * `beginBackgroundTask`: the token holds the identifier the system
   * returned. `Invalid` means no background time was granted: nothing is
   * open, so the expiration handler never runs.
   */
  function Begin(id: nat): (g: Grant)
    ensures g.token == id && g.calls == [GrantCall.Begin(id)]
    ensures g.open <==> id != Invalid
  {
    Grant(id, id != Invalid, [GrantCall.Begin(id)])
  }

  /** An `endBackgroundTask` call: whatever it names, the one grant is no longer open. */
  function EndGrant(g: Grant, id: nat): (r: Grant)
    ensures !r.open && r.token == g.token && r.calls == g.calls + [End(id)]
  {
    Grant(g.token, false, g.calls + [End(id)])
  }

  /** The expiration handler: ends the token's grant and invalidates the token. */
  function Expire(g: Grant): (r: Grant)
    ensures !r.open && r.token == Invalid && r.calls == g.calls + [End(g.token)]
  {
    var e := EndGrant(g, g.token);
    Grant(Invalid, e.open, e.calls)
  }

  /** How the completion callback ends the grant. */
  datatype Completion =
    | ByCapturedId(taskID: nat)   // ends the identifier captured when the grant began
    | ByValidToken                // ends the token's identifier when still valid, then invalidates it

  function RunCompletion(g: Grant, how: Completion): Grant {
    match how
    case ByCapturedId(taskID) => EndGrant(g, taskID)
    case ByValidToken => if g.token == Invalid then g else Expire(g)
  }

  /** The upload's steps acting on the grant: each completion runs the callback. */
  function Finish(g: Grant, steps: seq<Step>, how: Completion): Grant
    decreases |steps|
  {
    if steps == [] then g
    else Finish(if steps[0].Complete? then RunCompletion(g, how) else g, steps[1..], how)
  }

  /** With the captured identifier, each completion adds one end call naming that identifier. */
  lemma {:induction false} FinishByCapturedId(g: Grant, steps: seq<Step>, taskID: nat)
    ensures var r := Finish(g, steps, ByCapturedId(taskID));
      && Ends(r.calls) == Ends(g.calls) + CompletionCount(steps)
      && r.open == (g.open && CompletionCount(steps) == 0)
      && r.token == g.token
      && g.calls <= r.calls
      && (AllAbout(g.calls, taskID) ==> AllAbout(r.calls, taskID))
    decreases |steps|
  {
    if steps != [] {
      var g1 := if steps[0].Complete? then RunCompletion(g, ByCapturedId(taskID)) else g;
      EndsAppend(g.calls, [End(taskID)]);
      FinishByCapturedId(g1, steps[1..], taskID);
    }
  }

  /**
   * With the token check, completions add one end call in all, naming the
   * token's identifier, and only when the token is still valid.
   */
  lemma {:induction false} FinishByValidToken(g: Grant, steps: seq<Step>, id: nat)
    requires g.open <==> g.token != Invalid
    requires g.token == id || g.token == Invalid
    ensures var r := Finish(g, steps, ByValidToken);
      && Ends(r.calls) == Ends(g.calls) + (if g.token != Invalid && CompletionCount(steps) > 0 then 1 else 0)
      && (r.open <==> r.token != Invalid)
      && (r.token == id || r.token == Invalid)
      && r.open == (g.open && CompletionCount(steps) == 0)
      && g.calls <= r.calls
      && (AllAbout(g.calls, id) ==> AllAbout(r.calls, id))
    decreases |steps|
  {
    if steps != [] {
      var g1 := if steps[0].Complete? then RunCompletion(g, ByValidToken) else g;
      EndsAppend(g.calls, [End(g.token)]);
      FinishByValidToken(g1, steps[1..], id);
    }
  }

  /**
   * One `triggerUpload`, as a trace of grant calls. `id` is what
   * `beginBackgroundTask` returned; `alive` is whether the uploader still
   * exists when the background block runs (`[weak self]`); `expiresFirst` is
   * whether the grant's time runs out before the upload completes.
   * Expiration fires at most once, and only while the grant is open. Whatever
   * the schedule, the grant ends up closed. Through the token, a granted
   * identifier is ended exactly once and `Invalid` never. Through the
   * captured identifier, a granted identifier is ended twice when
   * expiration came first, and `Invalid` is passed to an end call whenever
   * the upload completes.
   */
  function TriggerWith(s: Store, p: Platform, c: Codec, id: nat, alive: bool, expiresFirst: bool, how: Completion): (r: Grant)
    requires how == ByValidToken || how == ByCapturedId(id)
    ensures r.calls != [] && r.calls[0] == GrantCall.Begin(id) && AllAbout(r.calls, id)
    ensures !r.open
    ensures how == ByValidToken ==> Ends(r.calls) == (if id == Invalid then 0 else 1)
    ensures how.ByCapturedId? && id != Invalid ==> Ends(r.calls) == (if alive && expiresFirst then 2 else 1)
    ensures how.ByCapturedId? && id == Invalid ==> Ends(r.calls) == (if alive then 1 else 0)
  {
    var start := Begin(id);
    var early := if (!alive || expiresFirst) && start.open then Expire(start) else start;
    var steps := PerformUpload(s, p, c).steps;
    EndsAppend(start.calls, [End(id)]);
    assert AllAbout(early.calls, id);
    FinishByCapturedId(early, steps, id);
    FinishByValidToken(early, steps, id);
    var done := if alive then Finish(early, steps, how) else early;
    assert !done.open;
    done
  }

  /**
   * `triggerUpload()` as written: the completion ends the identifier captured
   * by value when the grant began. With a granted identifier, every trace
   * begins once and ends the grant at least once, and exactly once unless the
   * grant expires before an upload that is still running completes. Without
   * one, the completion still calls `endBackgroundTask(.invalid)`.
   */
  function TriggerUploadAsWritten(s: Store, p: Platform, c: Codec, id: nat, alive: bool, expiresFirst: bool): (calls: seq<GrantCall>)
    ensures calls != [] && calls[0] == GrantCall.Begin(id) && AllAbout(calls, id)
    ensures id != Invalid ==> Ends(calls) >= 1
    ensures id != Invalid && !(alive && expiresFirst) ==> Ends(calls) == 1
    ensures id != Invalid && alive && expiresFirst ==> Ends(calls) == 2
    ensures id == Invalid ==> Ends(calls) == (if alive then 1 else 0)
  {
    TriggerWith(s, p, c, id, alive, expiresFirst, ByCapturedId(id)).calls
  }

  /**
   * The discrepancy on an empty log: the grant expires, its handler ends
   * grant 1, and the completion ends grant 1 again.
   */
  lemma ExpiredGrantEndedTwice(p: Platform, c: Codec)
    ensures TriggerUploadAsWritten(Store(None), p, c, 1, true, true) == [GrantCall.Begin(1), End(1), End(1)]
  {
    var early := Expire(Begin(1));
    assert early.calls == [GrantCall.Begin(1), End(1)];
    assert PerformUpload(Store(None), p, c).steps == [Complete];
  }

  /**
   * `triggerUpload()` with the completion going through the token, as the
   * token was evidently introduced for: on every schedule a granted
   * identifier is begun once and ended exactly once, and an `Invalid` one is
   * never passed to an end call.
   */
  function TriggerUpload(s: Store, p: Platform, c: Codec, id: nat, alive: bool, expiresFirst: bool): (calls: seq<GrantCall>)
    ensures calls != [] && calls[0] == GrantCall.Begin(id) && AllAbout(calls, id)
    ensures Ends(calls) == (if id == Invalid then 0 else 1)
  {
    TriggerWith(s, p, c, id, alive, expiresFirst, ByValidToken).calls
  }
}
