/** sendInitMessage (content.js): the content script announces itself with
    a CONTENT_LOADED message, and a send that fails is repeated one second
    later, at most ten times. `fails(k)` says whether attempt k (from 0)
    fails; the delays are not modelled. */
module InitMessage {
  const MaxRetries: nat := 10

  /** How the announcement ends: delivered at attempt `attempt`, or given up
      after attempt `attempt` failed. */
  datatype Outcome = Delivered(attempt: nat) | GaveUp(attempt: nat)

  /** The retry chain from `retryCount` on. */
  function SendInit(fails: nat -> bool, retryCount: nat): (r: Outcome)
    requires retryCount <= MaxRetries
    ensures retryCount <= r.attempt <= MaxRetries
    ensures r.Delivered? ==> !fails(r.attempt) && forall k :: retryCount <= k < r.attempt ==> fails(k)
    ensures r.GaveUp? ==> r.attempt == MaxRetries && forall k :: retryCount <= k <= MaxRetries ==> fails(k)
    decreases MaxRetries - retryCount
  {
    if !fails(retryCount) then Delivered(retryCount)
    else if retryCount < MaxRetries then SendInit(fails, retryCount + 1)
    else GaveUp(retryCount)
  }

  /** At most eleven sends in all, and the message is delivered exactly when
      one of them succeeds. */
  lemma AtMostElevenSends(fails: nat -> bool)
    ensures SendInit(fails, 0).attempt <= MaxRetries
    ensures SendInit(fails, 0).Delivered? <==> exists k :: 0 <= k <= MaxRetries && !fails(k)
  {
    var r := SendInit(fails, 0);
    if r.Delivered? {
      assert !fails(r.attempt);
    }
  }
}
