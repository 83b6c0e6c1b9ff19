/// The relay session `MjpegProxy`: one upstream MJPEG request shared by any
/// number of viewers. Every Node callback of the session is a method here,
/// driven by the event it answers (a viewer arriving or going away, the
/// upstream response, a data chunk, end, close, a request error, a retry
/// timer firing). Sockets, timers and `http.request` are abstract: a request
/// or response is a fresh handle, a scheduled retry is a count of pending
/// timers, and what is written to a viewer is a ghost log.
module ProxySession {
  import opened JsText
  import opened Boundary
  import opened FrameRewriter
  import opened SessionState

  /// `maxRetries` of the retry error listener.
  const MaxRetries: nat := 10

  datatype Options = Options(mjpegUrl: Option<string>, forceHttps: bool)

  /// JavaScript's rendering of `self.boundary` in a string concatenation.
  function BoundaryText(b: Option<string>): string
  {
    if b.Some? then b.value else "null"
  }

  /// A viewer registered before any response has the text `null` in its
  /// header, so a client that reads the header the way the relay does
  /// sees the boundary `null`.
  lemma HeaderBeforeFirstResponse()
    ensures ExtractBoundary(ContentTypeOf(Registered(BoundaryText(None)))) == "null"
  {
    var viewer := Registered(BoundaryText(None));
    assert viewer.headBoundary == "null" && "null"[..2] == "nu";
    ContentTypeRoundTrip(viewer);
  }

  class MjpegProxy {
    /// `options.forceHttps === true`: requests go out over https.
    const secure: bool

    var audienceResponses: seq<ViewerId>
    var newAudienceResponses: seq<ViewerId>
    var boundary: Option<string>
    var globalMjpegResponse: Option<Handle>
    var mjpegRequest: Option<Handle>
    var retryCount: nat
    /// The viewer captured by the current `self.mjpegResponseHandler`.
    var responseHandler: Option<ViewerId>
    /// Every request issued, with the closures attached to it.
    var requests: map<Handle, UpstreamRequest>
    /// Every response received, with its data handler's `lastByte1`/`lastByte2`.
    var responses: map<Handle, Tail>
    /// Retry timers scheduled with `setTimeout(retry, 500)` and not yet fired.
    var pendingRetries: nat
    /// Source of fresh handles for requests and responses.
    var nextHandle: Handle
    /// The viewers whose `res.headersSent` is true.
    var headersSent: set<ViewerId>

    /// The viewers that have arrived so far.
    ghost var arrived: set<ViewerId>
    /// What each viewer with headers sent has received.
    ghost var viewers: map<ViewerId, Viewer>
    /// The responses on which `destroy()` was called, in order.
    ghost var destroyed: seq<Handle>
    /// The requests on which `.end()` was called.
    ghost var requestsEnded: set<Handle>

    /// The session invariant.
    ghost predicate Valid()
      reads this
    {
      && ViewersOk(audienceResponses, newAudienceResponses, headersSent, arrived, viewers)
      && UpstreamOk(requests, responses, nextHandle, boundary, pendingRetries, responseHandler, arrived, requestsEnded)
      && (mjpegRequest.Some? ==> mjpegRequest.value in requests)
    }

    /// The session state right after construction.
    ghost predicate Initial()
      reads this
    {
      && audienceResponses == [] && newAudienceResponses == []
      && boundary.None? && globalMjpegResponse.None? && mjpegRequest.None?
      && retryCount == 0 && responseHandler.None?
      && requests == map[] && responses == map[] && pendingRetries == 0
      && headersSent == {} && arrived == {} && viewers == map[]
      && destroyed == [] && requestsEnded == {}
    }

    constructor (forceHttps: bool)
      ensures Valid() && Initial() && secure == forceHttps && nextHandle == 0
    {
      secure := forceHttps;
      audienceResponses, newAudienceResponses := [], [];
      boundary, globalMjpegResponse, mjpegRequest := None, None, None;
      retryCount, responseHandler := 0, None;
      requests, responses, pendingRetries, nextHandle := map[], map[], 0, 0;
      headersSent := {};
      arrived, viewers, destroyed, requestsEnded := {}, map[], [], {};
    }

    /// `new MjpegProxy(options)`: refused (the constructor throws) when no
    /// source URL is given.
    static method Create(options: Options) returns (r: Option<MjpegProxy>)
      ensures r.None? <==> options.mjpegUrl.None? || options.mjpegUrl == Some("")
      ensures r.Some? ==> fresh(r.value) && r.value.Valid() && r.value.Initial()
      ensures r.Some? ==> r.value.secure == options.forceHttps
    {
      if options.mjpegUrl.None? || options.mjpegUrl == Some("") {
        r := None;
      } else {
        var p := new MjpegProxy(options.forceHttps);
        r := Some(p);
      }
    }

    /// `createRequest()` with the error listener the caller attaches to it:
    /// a request for the current response handler, over https when forced.
    method CreateRequest(onError: ErrorListener) returns (h: Handle)
      requires Valid() && responseHandler.Some?
      modifies this`nextHandle, this`requests
      ensures Valid()
      ensures h == old(nextHandle) && h !in old(requests) && nextHandle == h + 1
      ensures requests == old(requests)[h := UpstreamRequest(responseHandler.value, onError, secure)]
    {
      UpstreamOkIssue(requests, responses, nextHandle, boundary, pendingRetries, responseHandler, arrived,
                      requestsEnded, UpstreamRequest(responseHandler.value, onError, secure));
      h := nextHandle;
      nextHandle := nextHandle + 1;
      requests := requests[h := UpstreamRequest(responseHandler.value, onError, secure)];
    }

    /// `_newClient(req, res)`: a viewer whose headers are not yet sent gets
    /// the multipart header, with whatever `self.boundary` is (the text
    /// `null` before any response), and joins both lists as pending.
    method NewClient(v: ViewerId)
      requires Valid() && v in arrived
      modifies this`headersSent, this`viewers, this`audienceResponses, this`newAudienceResponses
      ensures Valid()
      ensures v in old(headersSent) ==>
        && headersSent == old(headersSent) && viewers == old(viewers)
        && audienceResponses == old(audienceResponses)
        && newAudienceResponses == old(newAudienceResponses)
      ensures v !in old(headersSent) ==>
        && headersSent == old(headersSent) + {v}
        && viewers == old(viewers)[v := Registered(BoundaryText(boundary))]
        && audienceResponses == old(audienceResponses) + [v]
        && newAudienceResponses == old(newAudienceResponses) + [v]
    {
      if v !in headersSent {
        ViewersOkRegister(audienceResponses, newAudienceResponses, headersSent, arrived, viewers, v,
                          BoundaryText(boundary));
        headersSent := headersSent + {v};
        viewers := viewers[v := Registered(BoundaryText(boundary))];
        audienceResponses := audienceResponses + [v];
        newAudienceResponses := newAudienceResponses + [v];
      }
    }

    /// `cleanAudienceResponse(res)`: the viewer leaves both lists; when the
    /// audience is then empty the request is forgotten and the current
    /// response, if any, destroyed. It runs whether or not the viewer was
    /// still listed (a late `'close'` of an ended viewer does this again).
    method CleanAudienceResponse(v: ViewerId)
      requires Valid()
      modifies this`audienceResponses, this`newAudienceResponses, this`mjpegRequest, this`destroyed
      ensures Valid()
      ensures audienceResponses == Without(old(audienceResponses), v)
      ensures newAudienceResponses == Without(old(newAudienceResponses), v)
      ensures audienceResponses == [] ==>
        && mjpegRequest.None?
        && destroyed == old(destroyed) + (if globalMjpegResponse.Some? then [globalMjpegResponse.value] else [])
      ensures audienceResponses != [] ==> mjpegRequest == old(mjpegRequest) && destroyed == old(destroyed)
    {
      RemoveFromLists(v);
      if |audienceResponses| == 0 {
        Teardown();
      }
    }

    /// The second half of `cleanAudienceResponse`, once nobody is listed:
    /// the request is forgotten and the current response, if any, destroyed.
    method Teardown()
      requires Valid()
      modifies this`mjpegRequest, this`destroyed
      ensures Valid() && mjpegRequest.None?
      ensures destroyed == old(destroyed) + (if globalMjpegResponse.Some? then [globalMjpegResponse.value] else [])
    {
      mjpegRequest := None;
      if globalMjpegResponse.Some? {
        destroyed := destroyed + [globalMjpegResponse.value];
      }
    }

    /// The first half of `cleanAudienceResponse`: the viewer is spliced out
    /// of the audience and out of the pending list, wherever it is listed.
    method RemoveFromLists(v: ViewerId)
      requires Valid()
      modifies this`audienceResponses, this`newAudienceResponses
      ensures Valid()
      ensures audienceResponses == Without(old(audienceResponses), v)
      ensures newAudienceResponses == Without(old(newAudienceResponses), v)
    {
      ViewersOkRemove(audienceResponses, newAudienceResponses, headersSent, arrived, viewers, v);
      audienceResponses := Without(audienceResponses, v);
      newAudienceResponses := Without(newAudienceResponses, v);
    }

    /// The loop of the end handler and of retry exhaustion, which walks the
    /// audience from its last viewer to its first, ending each viewer and
    /// cleaning it out of the lists: every viewer is ended and both lists end
    /// empty.
    method EndAudience()
      requires Valid()
      modifies this`audienceResponses, this`newAudienceResponses, this`mjpegRequest, this`destroyed,
               this`viewers
      ensures Valid()
      ensures audienceResponses == [] && newAudienceResponses == []
      ensures EndedExactly(old(viewers), viewers, old(audienceResponses))
      ensures old(audienceResponses) != [] ==>
        && mjpegRequest.None?
        && destroyed == old(destroyed) + (if globalMjpegResponse.Some? then [globalMjpegResponse.value] else [])
      ensures old(audienceResponses) == [] ==> mjpegRequest == old(mjpegRequest) && destroyed == old(destroyed)
    {
      var i := |audienceResponses|;
      EndedNone(viewers);
      while i != 0
        invariant Valid()
        invariant 0 <= i <= |old(audienceResponses)|
        invariant audienceResponses == old(audienceResponses)[..i]
        invariant EndedExactly(old(viewers), viewers, old(audienceResponses)[i..])
        invariant i > 0 || old(audienceResponses) == [] ==>
          mjpegRequest == old(mjpegRequest) && destroyed == old(destroyed)
        invariant i == 0 && old(audienceResponses) != [] ==>
          && mjpegRequest.None?
          && destroyed == old(destroyed) + (if globalMjpegResponse.Some? then [globalMjpegResponse.value] else [])
      {
        EndAudienceStep(old(viewers), old(audienceResponses), old(mjpegRequest), old(destroyed), i);
        i := i - 1;
      }
      assert old(audienceResponses)[0..] == old(audienceResponses);
      EmptyOrHasHead(newAudienceResponses);
    }

    /// One turn of that loop, starting from `viewers0` with the audience
    /// `audience0` of which the first `i` are still listed: the last of them
    /// is ended and cleaned out, and the teardown happens at the final turn.
    method EndAudienceStep(ghost viewers0: map<ViewerId, Viewer>, ghost audience0: seq<ViewerId>,
                           ghost request0: Option<Handle>, ghost destroyed0: seq<Handle>, i: nat)
      requires Valid() && 0 < i <= |audience0|
      requires audienceResponses == audience0[..i]
      requires EndedExactly(viewers0, viewers, audience0[i..])
      requires mjpegRequest == request0 && destroyed == destroyed0
      modifies this`audienceResponses, this`newAudienceResponses, this`mjpegRequest, this`destroyed,
               this`viewers
      ensures Valid()
      ensures audienceResponses == audience0[..i - 1]
      ensures EndedExactly(viewers0, viewers, audience0[i - 1..])
      ensures i > 1 ==> mjpegRequest == request0 && destroyed == destroyed0
      ensures i == 1 ==>
        && mjpegRequest.None?
        && destroyed == destroyed0 + (if globalMjpegResponse.Some? then [globalMjpegResponse.value] else [])
    {
      var res := audienceResponses[i - 1];
      ghost var mid := viewers;
      EndViewer(res);
      EndedOneMore(viewers0, mid, audience0, i - 1);
    }

    /// The body of that loop for the last viewer `res` of the audience:
    /// `res.end()` and `cleanAudienceResponse(res)`.
    method EndViewer(res: ViewerId)
      requires Valid() && audienceResponses != [] && res == audienceResponses[|audienceResponses| - 1]
      modifies this`audienceResponses, this`newAudienceResponses, this`mjpegRequest, this`destroyed,
               this`viewers
      ensures Valid()
      ensures viewers == old(viewers)[res := old(viewers)[res].(ended := true)]
      ensures audienceResponses == old(audienceResponses)[..|old(audienceResponses)| - 1]
      ensures newAudienceResponses == Without(old(newAudienceResponses), res)
      ensures audienceResponses == [] ==>
        && mjpegRequest.None?
        && destroyed == old(destroyed) + (if globalMjpegResponse.Some? then [globalMjpegResponse.value] else [])
      ensures audienceResponses != [] ==> mjpegRequest == old(mjpegRequest) && destroyed == old(destroyed)
    {
      WithoutAt(audienceResponses, |audienceResponses| - 1);
      CleanAudienceResponse(res);
      // res.end() comes first in the code; the flag is raised once the
      // viewer is off the lists, where Valid() expects ended viewers.
      ViewersOkEnd(audienceResponses, newAudienceResponses, headersSent, arrived, viewers, res);
      viewers := viewers[res := viewers[res].(ended := true)];
    }

    /// `proxyRequest(req, res)`: with a request in flight the viewer is
    /// registered at once; otherwise the response handler is re-created
    /// around this viewer and a first request is issued and ended. The viewer
    /// is then registered only when that response arrives.
    method ProxyRequest(v: ViewerId)
      requires Valid() && v !in arrived
      modifies this`arrived, this`headersSent, this`viewers, this`audienceResponses, this`newAudienceResponses,
               this`responseHandler, this`nextHandle, this`requests, this`mjpegRequest, this`requestsEnded
      ensures Valid()
      ensures arrived == old(arrived) + {v}
      ensures old(mjpegRequest).Some? ==>
        && audienceResponses == old(audienceResponses) + [v]
        && newAudienceResponses == old(newAudienceResponses) + [v]
        && headersSent == old(headersSent) + {v}
        && viewers == old(viewers)[v := Registered(BoundaryText(boundary))]
        && requests == old(requests) && mjpegRequest == old(mjpegRequest) && nextHandle == old(nextHandle)
        && responseHandler == old(responseHandler) && requestsEnded == old(requestsEnded)
      ensures old(mjpegRequest).None? ==>
        && audienceResponses == old(audienceResponses)
        && newAudienceResponses == old(newAudienceResponses)
        && headersSent == old(headersSent) && viewers == old(viewers)
        && responseHandler == Some(v)
        && mjpegRequest == Some(old(nextHandle)) && old(nextHandle) !in old(requests)
        && requests == old(requests)[old(nextHandle) := UpstreamRequest(v, FirstError, secure)]
        && nextHandle == old(nextHandle) + 1
        && requestsEnded == old(requestsEnded) + {old(nextHandle)}
    {
      UpstreamOkArrive(requests, responses, nextHandle, boundary, pendingRetries, responseHandler, arrived,
                       requestsEnded, v);
      ViewersOkArrive(audienceResponses, newAudienceResponses, headersSent, arrived, viewers, v);
      arrived := arrived + {v};
      if mjpegRequest.Some? {
        NewClient(v);
      } else {
        SendSourceRequest(v);
      }
    }

    /// The branch of `proxyRequest` taken when no upstream request is
    /// current: the response handler is made for viewer `v`, the request is
    /// created with the first error listener and ended.
    method SendSourceRequest(v: ViewerId)
      requires Valid() && v in arrived
      modifies this`responseHandler, this`nextHandle, this`requests, this`mjpegRequest, this`requestsEnded
      ensures Valid()
      ensures responseHandler == Some(v)
      ensures mjpegRequest == Some(old(nextHandle)) && old(nextHandle) !in old(requests)
      ensures requests == old(requests)[old(nextHandle) := UpstreamRequest(v, FirstError, secure)]
      ensures nextHandle == old(nextHandle) + 1
      ensures requestsEnded == old(requestsEnded) + {old(nextHandle)}
    {
      UpstreamOkArrive(requests, responses, nextHandle, boundary, pendingRetries, responseHandler, arrived,
                       requestsEnded, v);
      responseHandler := Some(v);
      var h := CreateRequest(FirstError);
      UpstreamOkEndRequest(requests, responses, nextHandle, boundary, pendingRetries, responseHandler, arrived,
                           requestsEnded, h);
      mjpegRequest := Some(h);
      requestsEnded := requestsEnded + {h};
    }

    /// The viewer's `req` emitted `'close'` (its listener is bound by
    /// `_newClient`, so only registered viewers get here).
    method ViewerClosed(v: ViewerId)
      requires Valid() && v in headersSent
      modifies this`audienceResponses, this`newAudienceResponses, this`mjpegRequest, this`destroyed
      ensures Valid()
      ensures audienceResponses == Without(old(audienceResponses), v)
      ensures newAudienceResponses == Without(old(newAudienceResponses), v)
      ensures audienceResponses == [] ==>
        && mjpegRequest.None?
        && destroyed == old(destroyed) + (if globalMjpegResponse.Some? then [globalMjpegResponse.value] else [])
      ensures audienceResponses != [] ==> mjpegRequest == old(mjpegRequest) && destroyed == old(destroyed)
    {
      CleanAudienceResponse(v);
    }

    /// The response handler `mjpegResponseHandler` of request `req`: the
    /// response becomes the global one, its boundary is extracted, the viewer
    /// the handler closes over is registered, and the response's data handler
    /// starts with no remembered bytes.
    method ResponseArrives(req: Handle, contentTypeHeader: string) returns (rsp: Handle)
      requires Valid() && req in requests
      modifies this`nextHandle, this`globalMjpegResponse, this`boundary, this`responses,
               this`headersSent, this`viewers, this`audienceResponses, this`newAudienceResponses
      ensures Valid()
      ensures rsp == old(nextHandle) && rsp !in old(responses) && nextHandle == rsp + 1
      ensures globalMjpegResponse == Some(rsp)
      ensures boundary == Some(ExtractBoundary(contentTypeHeader))
      ensures responses == old(responses)[rsp := NoTail]
      ensures requests[req].handlerViewer in old(headersSent) ==>
        && audienceResponses == old(audienceResponses) && newAudienceResponses == old(newAudienceResponses)
        && viewers == old(viewers) && headersSent == old(headersSent)
      ensures requests[req].handlerViewer !in old(headersSent) ==>
        && audienceResponses == old(audienceResponses) + [requests[req].handlerViewer]
        && newAudienceResponses == old(newAudienceResponses) + [requests[req].handlerViewer]
        && headersSent == old(headersSent) + {requests[req].handlerViewer}
        && viewers == old(viewers)[requests[req].handlerViewer := Registered(boundary.value)]
    {
      rsp := TakeResponse(req, ExtractBoundary(contentTypeHeader));
    }

    /// The response handler once the boundary `b` is extracted.
    method TakeResponse(req: Handle, b: string) returns (rsp: Handle)
      requires Valid() && req in requests
      modifies this`nextHandle, this`globalMjpegResponse, this`boundary, this`responses,
               this`headersSent, this`viewers, this`audienceResponses, this`newAudienceResponses
      ensures Valid()
      ensures rsp == old(nextHandle) && rsp !in old(responses) && nextHandle == rsp + 1
      ensures globalMjpegResponse == Some(rsp)
      ensures boundary == Some(b)
      ensures responses == old(responses)[rsp := NoTail]
      ensures requests[req].handlerViewer in old(headersSent) ==>
        && audienceResponses == old(audienceResponses) && newAudienceResponses == old(newAudienceResponses)
        && viewers == old(viewers) && headersSent == old(headersSent)
      ensures requests[req].handlerViewer !in old(headersSent) ==>
        && audienceResponses == old(audienceResponses) + [requests[req].handlerViewer]
        && newAudienceResponses == old(newAudienceResponses) + [requests[req].handlerViewer]
        && headersSent == old(headersSent) + {requests[req].handlerViewer}
        && viewers == old(viewers)[requests[req].handlerViewer := Registered(b)]
    {
      // The data listener is attached in the same synchronous call as
      // `_newClient`, so attaching it first changes nothing observable.
      rsp := AcceptResponse(b);
      NewClient(requests[req].handlerViewer);
    }

    /// The upstream half of the response handler: the response is taken as
    /// the global one with its extracted boundary `b`, and its data listener
    /// is attached.
    method AcceptResponse(b: string) returns (rsp: Handle)
      requires Valid()
      modifies this`nextHandle, this`globalMjpegResponse, this`boundary, this`responses
      ensures Valid()
      ensures rsp == old(nextHandle) && rsp !in old(responses) && nextHandle == rsp + 1
      ensures globalMjpegResponse == Some(rsp)
      ensures boundary == Some(b)
      ensures responses == old(responses)[rsp := NoTail]
    {
      UpstreamOkRespond(requests, responses, nextHandle, boundary, pendingRetries, responseHandler, arrived,
                        requestsEnded, b);
      rsp := nextHandle;
      nextHandle := nextHandle + 1;
      globalMjpegResponse := Some(rsp);
      boundary := Some(b);
      responses := responses[rsp := NoTail];
    }

    /// The chunk the data handler of `rsp` forwards for `chunk`.
    ghost function Forwarded(rsp: Handle, chunk: seq<byte>): seq<byte>
      reads this
      requires Valid() && rsp in responses
    {
      FixChunk(responses[rsp], chunk, boundary.value)
    }

    /// Delivery of one forwarded chunk to viewer `res` of the audience; a
    /// pending viewer that joins stops being pending.
    method Deliver(res: ViewerId, fwd: seq<byte>, b: string, p: int)
      requires Valid() && res in audienceResponses
      requires p == IndexOf(fwd, Marker(b), 0)
      modifies this`viewers, this`newAudienceResponses
      ensures Valid()
      ensures viewers == old(viewers)[res := DeliverTo(old(viewers)[res], res in old(newAudienceResponses), fwd, b, p)]
      ensures newAudienceResponses ==
        if res in old(newAudienceResponses) && p >= 0 then Without(old(newAudienceResponses), res)
        else old(newAudienceResponses)
    {
      var k := ArrayIndexOf(newAudienceResponses, res);
      if k >= 0 {
        if p >= 0 {
          assert OccursAt(fwd, Marker(b), p);
          assert fwd[p..][..|Marker(b)|] == fwd[p..p + |Marker(b)|];
          WithoutAt(newAudienceResponses, k);
          ViewersOkJoin(audienceResponses, newAudienceResponses, headersSent, arrived, viewers, res, fwd[p..], b);
          viewers := viewers[res := viewers[res].(written := viewers[res].written + fwd[p..], joinedWith := Some(b))];
          newAudienceResponses := RemoveAt(newAudienceResponses, k);
        }
      } else {
        ViewersOkAppend(audienceResponses, newAudienceResponses, headersSent, arrived, viewers, res, fwd);
        viewers := viewers[res := viewers[res].(written := viewers[res].written + fwd)];
      }
    }

    /// The response's `'data'` handler: the chunk is rewritten, its last two
    /// bytes remembered, and it is delivered to every viewer of the audience.
    /// When the forwarded chunk holds a marker, no viewer is pending after it.
    method OnData(rsp: Handle, chunk: seq<byte>)
      requires Valid() && rsp in responses
      modifies this`responses, this`viewers, this`newAudienceResponses
      ensures Valid()
      ensures var fwd := old(Forwarded(rsp, chunk));
              var m := Marker(boundary.value);
              var p := IndexOf(fwd, m, 0);
        && responses == old(responses)[rsp := TailOf(fwd)]
        && newAudienceResponses == (if p >= 0 then [] else old(newAudienceResponses))
        && viewers == FanOut(old(viewers), old(newAudienceResponses), audienceResponses, fwd, boundary.value, p)
    {
      var fwd := FixChunk(responses[rsp], chunk, boundary.value);
      UpstreamOkTail(requests, responses, nextHandle, boundary, pendingRetries, responseHandler, arrived,
                     requestsEnded, rsp, TailOf(fwd));
      responses := responses[rsp := TailOf(fwd)];
      Broadcast(fwd);
    }

    /// The fan-out loop of the `'data'` handler: from the last viewer of the
    /// audience to the first, a pending viewer gets the chunk from its first
    /// marker on and stops being pending, and any other viewer gets all of it.
    method Broadcast(fwd: seq<byte>)
      requires Valid() && boundary.Some?
      modifies this`viewers, this`newAudienceResponses
      ensures Valid()
      ensures var m := Marker(boundary.value);
              var p := IndexOf(fwd, m, 0);
        && newAudienceResponses == (if p >= 0 then [] else old(newAudienceResponses))
        && viewers == FanOut(old(viewers), old(newAudienceResponses), audienceResponses, fwd, boundary.value, p)
    {
      var b := boundary.value;
      var marker := Marker(b);
      ghost var p0 := IndexOf(fwd, marker, 0);
      var i := |audienceResponses|;
      while i != 0
        invariant Valid()
        invariant 0 <= i <= |audienceResponses|
        invariant viewers == FanOut(old(viewers), old(newAudienceResponses), audienceResponses[i..], fwd, b, p0)
        invariant forall v :: v in newAudienceResponses <==>
          v in old(newAudienceResponses) && (p0 < 0 || v !in audienceResponses[i..])
        invariant p0 < 0 ==> newAudienceResponses == old(newAudienceResponses)
      {
        i := i - 1;
        var res := audienceResponses[i];
        assert audienceResponses[i..][1..] == audienceResponses[i + 1..];
        assert res !in audienceResponses[i + 1..] by {
          forall j | i + 1 <= j < |audienceResponses| ensures audienceResponses[j] != res { }
        }
        var p := IndexOf(fwd, marker, 0);
        ghost var before := newAudienceResponses;
        Deliver(res, fwd, b, p);
        if res in before && p >= 0 {
          WithoutMembers(before, res);
        }
      }
      assert audienceResponses[0..] == audienceResponses;
      if p0 >= 0 {
        EmptyOrHasHead(newAudienceResponses);
      }
    }

    /// The response's `'end'` handler: every viewer is ended and removed.
    method OnEnd(rsp: Handle)
      requires Valid() && rsp in responses
      modifies this`audienceResponses, this`newAudienceResponses, this`mjpegRequest, this`destroyed,
               this`viewers
      ensures Valid()
      ensures audienceResponses == [] && newAudienceResponses == []
      ensures EndedExactly(old(viewers), viewers, old(audienceResponses))
      ensures old(audienceResponses) != [] ==>
        && mjpegRequest.None?
        && destroyed == old(destroyed) + (if globalMjpegResponse.Some? then [globalMjpegResponse.value] else [])
      ensures old(audienceResponses) == [] ==> mjpegRequest == old(mjpegRequest) && destroyed == old(destroyed)
    {
      EndAudience();
    }

    /// The response's `'close'` handler forgets the current request, even
    /// when it is a newer request than the one this response answered.
    method OnClose(rsp: Handle)
      requires Valid() && rsp in responses
      modifies this`mjpegRequest
      ensures Valid() && mjpegRequest.None?
    {
      mjpegRequest := None;
    }

    /// The first `'error'` listener: the retry count restarts at 0 and a
    /// retry is scheduled.
    method OnFirstError(req: Handle)
      requires Valid() && req in requests && requests[req].onError == FirstError
      modifies this`mjpegRequest, this`retryCount, this`pendingRetries
      ensures Valid()
      ensures mjpegRequest.None? && retryCount == 0 && pendingRetries == old(pendingRetries) + 1
    {
      mjpegRequest := None;
      retryCount := 0;
      pendingRetries := pendingRetries + 1;
    }

    /// A `retry` timer fires: when no request is current, the count goes up
    /// and a new request is issued with the retry error listener. Unlike the
    /// first request it is never ended.
    method OnRetryTimer()
      requires Valid() && pendingRetries > 0
      modifies this`pendingRetries, this`retryCount, this`mjpegRequest, this`nextHandle, this`requests
      ensures Valid()
      ensures pendingRetries == old(pendingRetries) - 1
      ensures old(mjpegRequest).Some? ==>
        && mjpegRequest == old(mjpegRequest) && retryCount == old(retryCount)
        && requests == old(requests) && nextHandle == old(nextHandle)
      ensures old(mjpegRequest).None? ==>
        && retryCount == old(retryCount) + 1
        && mjpegRequest == Some(old(nextHandle)) && old(nextHandle) !in old(requests)
        && requests == old(requests)[old(nextHandle) := UpstreamRequest(responseHandler.value, RetryError, secure)]
        && nextHandle == old(nextHandle) + 1
    {
      pendingRetries := pendingRetries - 1;
      if mjpegRequest.None? {
        retryCount := retryCount + 1;
        var h := CreateRequest(RetryError);
        mjpegRequest := Some(h);
      }
    }

    /// The retry request's `'error'` listener: another retry is scheduled
    /// while the count is below `MaxRetries`; at the limit every viewer is
    /// ended and removed instead.
    method OnRetryError(req: Handle)
      requires Valid() && req in requests && requests[req].onError == RetryError
      modifies this`mjpegRequest, this`pendingRetries,
               this`audienceResponses, this`newAudienceResponses, this`destroyed, this`viewers
      ensures Valid()
      ensures mjpegRequest.None?
      ensures old(retryCount) < MaxRetries ==>
        && pendingRetries == old(pendingRetries) + 1
        && audienceResponses == old(audienceResponses) && newAudienceResponses == old(newAudienceResponses)
        && viewers == old(viewers) && destroyed == old(destroyed)
      ensures old(retryCount) >= MaxRetries ==>
        && pendingRetries == old(pendingRetries)
        && audienceResponses == [] && newAudienceResponses == []
        && EndedExactly(old(viewers), viewers, old(audienceResponses))
      ensures old(retryCount) >= MaxRetries && old(audienceResponses) != [] ==>
        destroyed == old(destroyed) + (if globalMjpegResponse.Some? then [globalMjpegResponse.value] else [])
      ensures old(retryCount) >= MaxRetries && old(audienceResponses) == [] ==> destroyed == old(destroyed)
    {
      mjpegRequest := None;
      if retryCount < MaxRetries {
        pendingRetries := pendingRetries + 1;
      } else {
        EndAudience();
      }
    }
  }
}
