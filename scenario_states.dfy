/// The states the relay session passes through in the scenarios of
/// `ProxyScenarios`, each as one predicate over a session.
module ScenarioStates {
  import opened JsText
  import opened SessionState
  import opened ProxySession

  /// The viewers `lo`, `lo + 1`, ..., `hi - 1`, in order.
  function Ids(lo: nat, hi: nat): (r: seq<ViewerId>)
    requires lo <= hi
    ensures |r| == hi - lo && forall i :: 0 <= i < |r| ==> r[i] == lo + i
  {
    seq(hi - lo, i requires 0 <= i < hi - lo => lo + i)
  }

  lemma IdsOne()
    ensures Ids(0, 1) == [0]
  {
  }

  lemma IdsAppend(lo: nat, hi: nat)
    requires lo <= hi
    ensures Ids(lo, hi) + [hi] == Ids(lo, hi + 1)
  {
  }

  lemma IdsTail(lo: nat, hi: nat)
    requires lo < hi
    ensures Ids(lo, hi)[0] == lo && Ids(lo, hi)[1..] == Ids(lo + 1, hi)
  {
  }

  /// Removing the first viewer of a list that starts with it.
  lemma WithoutFirst(s: seq<ViewerId>)
    requires s != []
    ensures Without(s, s[0]) == s[1..]
  {
    assert ArrayIndexOf(s, s[0]) == 0;
  }

  /// Viewers 0 to `n - 1` have arrived and are registered, in order, on the
  /// one request 0 (made for viewer 0) and its response 1.
  ghost predicate Sharing(p: MjpegProxy, n: nat)
    reads p
  {
    && p.Valid()
    && p.requests == map[0 := UpstreamRequest(0, FirstError, false)]
    && p.mjpegRequest == Some(0)
    && p.audienceResponses == Ids(0, n)
    && (forall w: ViewerId :: w in p.arrived ==> w < n)
    && (forall w: ViewerId :: w < n ==> w in p.headersSent)
    && p.globalMjpegResponse == Some(1) && p.destroyed == []
    && p.pendingRetries == 0
  }

  /// Of the viewers 0 to `n - 1`, the first `w` have closed; response 1 was
  /// destroyed when the last one did.
  ghost predicate Closing(p: MjpegProxy, w: nat, n: nat)
    reads p
  {
    && w <= n
    && p.Valid()
    && p.audienceResponses == Ids(w, n)
    && (forall x: ViewerId :: x < n ==> x in p.headersSent)
    && p.globalMjpegResponse == Some(1)
    && (w < n ==> p.destroyed == [])
    && (w == n ==> p.mjpegRequest.None? && p.destroyed == [1])
  }

  /// Viewer 0, the only arrival, is attached while `k` retries have failed;
  /// after the `MaxRetries`-th it is ended and nothing is scheduled.
  ghost predicate Retrying(p: MjpegProxy, k: nat)
    reads p
  {
    && k <= MaxRetries
    && p.Valid()
    && p.retryCount == k && p.mjpegRequest.None?
    && (forall w: ViewerId :: w in p.arrived ==> w == 0)
    && 0 in p.viewers && (p.viewers[0].ended <==> k == MaxRetries)
    && (k < MaxRetries ==> p.pendingRetries == 1 && p.audienceResponses == [0])
    && (k == MaxRetries ==> p.pendingRetries == 0 && p.audienceResponses == [])
  }
}
