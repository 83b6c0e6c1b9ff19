/// Whole runs of the relay session, event by event: several viewers sharing
/// one upstream request, and the retry chain running out and restarting.
/// The content type of the upstream response is a parameter; nothing here
/// depends on its text.
module ProxyScenarios {
  import opened JsText
  import opened Boundary
  import opened SessionState
  import opened ProxySession
  import opened ScenarioStates

  /// The first viewer arrives at a new session: request 0 goes out, made
  /// for that viewer, and nobody is registered yet.
  method Connect() returns (p: MjpegProxy)
    ensures fresh(p) && p.Valid()
    ensures p.requests == map[0 := UpstreamRequest(0, FirstError, false)] && p.mjpegRequest == Some(0)
    ensures p.audienceResponses == [] && p.headersSent == {} && p.nextHandle == 1
    ensures forall w: ViewerId :: w in p.arrived ==> w == 0
    ensures p.globalMjpegResponse.None? && p.destroyed == []
    ensures p.retryCount == 0 && p.pendingRetries == 0
  {
    p := new MjpegProxy(false);
    p.ProxyRequest(0);
  }

  /// The first viewer's request is answered: viewer 0 is registered and
  /// response 1 is the global one.
  method StartStream(contentType: string) returns (p: MjpegProxy)
    ensures fresh(p) && Sharing(p, 1)
  {
    p := Connect();
    Respond(p, contentType);
    IdsOne();
  }

  /// The response to request 0 arrives and its handler runs, as in
  /// `ResponseArrives`, on the boundary extracted from `contentType`: its
  /// viewer is registered and the response becomes the global one; nothing
  /// else that the scenarios follow changes.
  method Respond(p: MjpegProxy, contentType: string)
    requires p.Valid() && 0 in p.requests && p.requests[0].handlerViewer == 0
    requires p.audienceResponses == [] && p.headersSent == {} && p.nextHandle == 1
    modifies p
    ensures p.Valid() && p.audienceResponses == [0] && 0 in p.headersSent && p.globalMjpegResponse == Some(1)
    ensures p.requests == old(p.requests) && p.mjpegRequest == old(p.mjpegRequest)
    ensures p.arrived == old(p.arrived) && p.destroyed == old(p.destroyed)
    ensures p.pendingRetries == old(p.pendingRetries)
  {
    var rsp := p.TakeResponse(0, ExtractBoundary(contentType));
  }

  /// Viewers 1 to `n - 1` arrive while the request is current: each is
  /// registered at once and no other request is issued.
  method JoinViewers(p: MjpegProxy, n: nat)
    requires n >= 1 && Sharing(p, 1)
    modifies p
    ensures Sharing(p, n)
  {
    var v := 1;
    while v < n
      invariant 1 <= v <= n
      invariant Sharing(p, v)
    {
      Join(p, v);
      v := v + 1;
    }
  }

  /// Viewer `v` arrives and is registered behind the `v` before it.
  method Join(p: MjpegProxy, v: nat)
    requires Sharing(p, v)
    modifies p
    ensures Sharing(p, v + 1)
  {
    IdsAppend(0, v);
    p.ProxyRequest(v);
  }

  /// The viewers close in the order they came: the response is destroyed
  /// when the last one goes, and only then.
  method CloseViewers(p: MjpegProxy, n: nat)
    requires n >= 1 && Sharing(p, n)
    modifies p
    ensures Closing(p, n, n)
  {
    var w := 0;
    while w < n
      invariant 0 <= w <= n
      invariant Closing(p, w, n)
    {
      CloseNext(p, w, n);
      w := w + 1;
    }
  }

  /// Viewer `w`, now the first of the audience, closes.
  method CloseNext(p: MjpegProxy, w: nat, n: nat)
    requires w < n && Closing(p, w, n)
    modifies p
    ensures Closing(p, w + 1, n)
  {
    IdsTail(w, n);
    WithoutFirst(p.audienceResponses);
    p.ViewerClosed(w);
  }

  /// `n` viewers arrive one after another: only the first issues an upstream
  /// request, the others join it; once all have closed, the one response
  /// has been destroyed once.
  method SharedUpstream(n: nat, contentType: string) returns (issued: nat, peak: nat, ghost teardowns: seq<Handle>)
    requires n >= 1
    ensures issued == 1
    ensures peak == n
    ensures teardowns == [1]
  {
    var p := StartStream(contentType);
    JoinViewers(p, n);
    issued := |p.requests|;
    peak := |p.audienceResponses|;
    CloseViewers(p, n);
    teardowns := p.destroyed;
  }

  /// A viewer is streaming when the first request fails: its error listener
  /// schedules a retry with the count back at 0.
  method FirstRequestFails(contentType: string) returns (p: MjpegProxy)
    ensures fresh(p) && Retrying(p, 0)
  {
    p := StartStream(contentType);
    IdsOne();
    assert p.audienceResponses[0] == 0;
    p.OnFirstError(0);
  }

  /// Every retry fails: the tenth failure ends the viewer and schedules no
  /// further attempt.
  method RetryUntilExhausted(p: MjpegProxy)
    requires Retrying(p, 0)
    modifies p
    ensures Retrying(p, MaxRetries)
  {
    var k := 0;
    while k < MaxRetries
      invariant 0 <= k <= MaxRetries
      invariant Retrying(p, k)
    {
      RetryFails(p, k);
      k := k + 1;
    }
  }

  /// The pending retry timer fires and the request it issues fails.
  method RetryFails(p: MjpegProxy, k: nat)
    requires k < MaxRetries && Retrying(p, k)
    modifies p
    ensures Retrying(p, k + 1)
  {
    var h := p.nextHandle;
    p.OnRetryTimer();
    p.OnRetryError(h);
  }

  /// A viewer arriving after exhaustion issues a new first request; when
  /// that fails too, the next retry is attempt 1 again.
  method RestartAfterExhaustion(p: MjpegProxy, v: ViewerId) returns (attempt: nat)
    requires Retrying(p, MaxRetries) && v != 0
    modifies p
    ensures attempt == 1
  {
    var first := p.nextHandle;
    p.ProxyRequest(v);
    p.OnFirstError(first);
    p.OnRetryTimer();
    attempt := p.retryCount;
  }

  /// The whole retry chain: ten failed retries, then a fresh cycle.
  method RetriesRunOut(contentType: string)
    returns (retries: nat, scheduled: nat, attached: nat, restartAttempt: nat)
    ensures retries == MaxRetries
    ensures scheduled == 0 && attached == 0
    ensures restartAttempt == 1
  {
    var p := FirstRequestFails(contentType);
    RetryUntilExhausted(p);
    retries, scheduled, attached := p.retryCount, p.pendingRetries, |p.audienceResponses|;
    restartAttempt := RestartAfterExhaustion(p, 1);
  }
}
