/// The values a relay session holds, apart from the object that holds
/// them: viewer lists and records, issued requests and responses, the two
/// invariants over them and how each step of the session keeps those, and
/// the effect of ending or feeding every viewer of a list.
module SessionState {
  import opened JsText
  import opened Boundary
  import opened FrameRewriter

  /// One downstream viewer, the `(req, res)` pair of its HTTP request.
  type ViewerId = nat
  /// An upstream request or response object.
  type Handle = nat

  /// Which `'error'` listener a request carries: the first one, installed by
  /// `proxyRequest`, or the one installed by the retry function.
  datatype ErrorListener = FirstError | RetryError

  /// An issued upstream request: the viewer whose `(req, res)` the response
  /// handler passed to `createRequest` closes over, its error listener, and
  /// whether it went out over https.
  datatype UpstreamRequest = UpstreamRequest(handlerViewer: ViewerId, onError: ErrorListener, secure: bool)

  /// No element is listed twice.
  predicate NoDuplicates<T(==)>(s: seq<T>)
  {
    forall i, j :: 0 <= i < j < |s| ==> s[i] != s[j]
  }

  /// `Array.prototype.indexOf(x)`: the first index holding `x`, or -1.
  function ArrayIndexOf<T(==)>(s: seq<T>, x: T): (r: int)
    ensures -1 <= r < |s|
    ensures r == -1 <==> x !in s
    ensures r >= 0 ==> s[r] == x && x !in s[..r]
  {
    if s == [] then -1
    else if s[0] == x then 0
    else
      var r := ArrayIndexOf(s[1..], x);
      assert s == [s[0]] + s[1..];
      if r == -1 then -1
      else
        assert s[..r + 1] == [s[0]] + s[1..][..r];
        r + 1
  }

  /// `s.splice(s.indexOf(x), 1)` guarded by `indexOf >= 0`, as
  /// `cleanAudienceResponse` does it.
  function Without<T(==)>(s: seq<T>, x: T): seq<T>
  {
    var i := ArrayIndexOf(s, x);
    if i >= 0 then RemoveAt(s, i) else s
  }

  /// Removal takes away one occurrence of `x`, if there is one, and keeps
  /// every other element, whether or not the list has duplicates.
  lemma WithoutCounts<T>(s: seq<T>, x: T)
    ensures |Without(s, x)| == if x in s then |s| - 1 else |s|
    ensures multiset(Without(s, x)) == multiset(s) - multiset{x}
    ensures x !in s ==> Without(s, x) == s
  {
    var i := ArrayIndexOf(s, x);
    if i >= 0 {
      assert s == s[..i] + [x] + s[i + 1..];
    }
  }

  /// A list is empty or has its first element as a member.
  lemma EmptyOrHasHead<T>(s: seq<T>)
    ensures s == [] || s[0] in s
  {
  }

  /// Removing a viewer from a list without duplicates keeps the others, in
  /// order, and nothing else.
  lemma WithoutMembers<T>(s: seq<T>, x: T)
    requires NoDuplicates(s)
    ensures NoDuplicates(Without(s, x))
    ensures forall y :: y in Without(s, x) <==> y in s && y != x
    ensures x !in s ==> Without(s, x) == s
  {
    var i := ArrayIndexOf(s, x);
    if i >= 0 {
      var r := Without(s, x);
      forall y ensures y in r <==> y in s && y != x {
        if y in r {
          var k :| 0 <= k < |r| && r[k] == y;
          if k < i { assert r[k] == s[k]; } else { assert r[k] == s[k + 1]; }
        }
        if y in s && y != x {
          var k :| 0 <= k < |s| && s[k] == y;
          if k < i { assert r[k] == y; } else { assert k != i; assert r[k - 1] == y; }
        }
      }
    }
  }

  /// In a list without duplicates, the element at `i` is found at `i`.
  lemma WithoutAt<T>(s: seq<T>, i: nat)
    requires NoDuplicates(s) && i < |s|
    ensures Without(s, s[i]) == RemoveAt(s, i)
  {
  }


  /// Appending a viewer not yet listed keeps a list free of duplicates.
  lemma NoDuplicatesAppend<T>(s: seq<T>, x: T)
    requires NoDuplicates(s) && x !in s
    ensures NoDuplicates(s + [x])
  {
    forall i, j | 0 <= i < j < |s| + 1 ensures (s + [x])[i] != (s + [x])[j] {
      if j == |s| {
        assert (s + [x])[i] == s[i];
      } else {
        assert (s + [x])[i] == s[i] && (s + [x])[j] == s[j];
      }
    }
  }

  /// What one registered viewer has been sent: the boundary text in the
  /// `Content-Type` of its `writeHead`, every byte `res.write` sent it, the
  /// boundary whose marker `--<boundary>` its first bytes are (once it has
  /// any), and whether `res.end()` was called.
  datatype Viewer = Viewer(headBoundary: string, written: seq<byte>, joinedWith: Option<string>, ended: bool)

  const ContentTypePrefix: string := "multipart/x-mixed-replace;boundary="

  /// The `Content-Type` header value `_newClient` sends a viewer.
  function ContentTypeOf(viewer: Viewer): string
  {
    ContentTypePrefix + viewer.headBoundary
  }

  /// The header the relay sends gives back, read with `extractBoundary`,
  /// the boundary it was made from, for any boundary without `;`, carriage
  /// return or double quote that does not itself start with `--`.
  lemma ContentTypeRoundTrip(viewer: Viewer)
    requires ';' !in viewer.headBoundary && '\r' !in viewer.headBoundary && '"' !in viewer.headBoundary
    requires !(|viewer.headBoundary| >= 2 && viewer.headBoundary[..2] == "--")
    ensures ExtractBoundary(ContentTypeOf(viewer)) == viewer.headBoundary
  {
    var prefix := "multipart/x-mixed-replace;";
    assert ContentTypePrefix == prefix + Parameter;
    ExtractBoundaryOfParameter(prefix, viewer.headBoundary);
  }

  /// The record `_newClient` starts for a viewer whose header carries
  /// `headBoundary`.
  function Registered(headBoundary: string): Viewer
  {
    Viewer(headBoundary, [], None, false)
  }

  /// The viewer-side invariant: no viewer listed twice, pending viewers
  /// listed in the audience, listed viewers registered and not ended,
  /// pending viewers not joined, every other listed viewer joined, and what
  /// any viewer was sent either nothing (before it joined) or starting with
  /// the marker `--<boundary>` of the boundary it joined at.
  ghost predicate ViewersOk(audience: seq<ViewerId>, pending: seq<ViewerId>, headersSent: set<ViewerId>,
                            arrived: set<ViewerId>, viewers: map<ViewerId, Viewer>)
  {
    && NoDuplicates(audience)
    && NoDuplicates(pending)
    && headersSent <= arrived
    && viewers.Keys == headersSent
    && (forall v :: v in pending ==> v in audience)
    && (forall v :: v in audience ==> v in viewers && !viewers[v].ended)
    && (forall v :: v in pending ==> viewers[v].joinedWith.None?)
    && (forall v :: v in audience && v !in pending ==> viewers[v].joinedWith.Some?)
    && (forall v :: v in viewers ==>
          if viewers[v].joinedWith.Some? then Marker(viewers[v].joinedWith.value) <= viewers[v].written
          else viewers[v].written == [])
  }

  /// `_newClient` keeps the invariant: the new viewer is pending and was
  /// sent nothing.
  lemma ViewersOkRegister(audience: seq<ViewerId>, pending: seq<ViewerId>, headersSent: set<ViewerId>,
                          arrived: set<ViewerId>, viewers: map<ViewerId, Viewer>, v: ViewerId, headBoundary: string)
    requires ViewersOk(audience, pending, headersSent, arrived, viewers)
    requires v in arrived && v !in headersSent
    ensures ViewersOk(audience + [v], pending + [v], headersSent + {v}, arrived,
                      viewers[v := Registered(headBoundary)])
  {
    assert v !in audience && v !in pending;
    NoDuplicatesAppend(audience, v);
    NoDuplicatesAppend(pending, v);
  }

  /// `cleanAudienceResponse` keeps the invariant.
  lemma ViewersOkRemove(audience: seq<ViewerId>, pending: seq<ViewerId>, headersSent: set<ViewerId>,
                        arrived: set<ViewerId>, viewers: map<ViewerId, Viewer>, v: ViewerId)
    requires ViewersOk(audience, pending, headersSent, arrived, viewers)
    ensures ViewersOk(Without(audience, v), Without(pending, v), headersSent, arrived, viewers)
  {
    WithoutMembers(audience, v);
    WithoutMembers(pending, v);
  }

  /// A viewer's arrival keeps the invariant.
  lemma ViewersOkArrive(audience: seq<ViewerId>, pending: seq<ViewerId>, headersSent: set<ViewerId>,
                        arrived: set<ViewerId>, viewers: map<ViewerId, Viewer>, v: ViewerId)
    requires ViewersOk(audience, pending, headersSent, arrived, viewers)
    ensures ViewersOk(audience, pending, headersSent, arrived + {v}, viewers)
  {
  }

  /// Ending a viewer that is off the lists keeps the invariant.
  lemma ViewersOkEnd(audience: seq<ViewerId>, pending: seq<ViewerId>, headersSent: set<ViewerId>,
                     arrived: set<ViewerId>, viewers: map<ViewerId, Viewer>, v: ViewerId)
    requires ViewersOk(audience, pending, headersSent, arrived, viewers)
    requires v in viewers && v !in audience
    ensures ViewersOk(audience, pending, headersSent, arrived, viewers[v := viewers[v].(ended := true)])
  {
  }

  /// A pending viewer that is sent bytes starting with the marker of
  /// boundary `b` joins at `b` and keeps the invariant.
  lemma ViewersOkJoin(audience: seq<ViewerId>, pending: seq<ViewerId>, headersSent: set<ViewerId>,
                      arrived: set<ViewerId>, viewers: map<ViewerId, Viewer>, v: ViewerId,
                      bytes: seq<byte>, b: string)
    requires ViewersOk(audience, pending, headersSent, arrived, viewers)
    requires v in pending && Marker(b) <= bytes
    ensures ViewersOk(audience, Without(pending, v), headersSent, arrived,
                      viewers[v := viewers[v].(written := viewers[v].written + bytes, joinedWith := Some(b))])
  {
    WithoutMembers(pending, v);
    assert viewers[v].written + bytes == bytes;
  }

  /// Appending to what a joined viewer was sent keeps its marker first.
  lemma ViewersOkAppend(audience: seq<ViewerId>, pending: seq<ViewerId>, headersSent: set<ViewerId>,
                        arrived: set<ViewerId>, viewers: map<ViewerId, Viewer>, v: ViewerId, bytes: seq<byte>)
    requires ViewersOk(audience, pending, headersSent, arrived, viewers)
    requires v in audience && v !in pending
    ensures ViewersOk(audience, pending, headersSent, arrived,
                      viewers[v := viewers[v].(written := viewers[v].written + bytes)])
  {
    var m := Marker(viewers[v].joinedWith.value);
    assert (viewers[v].written + bytes)[..|m|] == viewers[v].written[..|m|];
  }

  /// The upstream invariant: handles are fresh, a request exists only once
  /// a response handler was made for an arrived viewer, a response only once
  /// a boundary was extracted, a retry is pending only with a response
  /// handler to reuse, and only issued requests were ended.
  ghost predicate UpstreamOk(requests: map<Handle, UpstreamRequest>, responses: map<Handle, Tail>,
                             nextHandle: Handle, boundary: Option<string>, pendingRetries: nat,
                             responseHandler: Option<ViewerId>, arrived: set<ViewerId>, requestsEnded: set<Handle>)
  {
    && (forall h :: h in requests ==>
          h < nextHandle && requests[h].handlerViewer in arrived && responseHandler.Some?)
    && (forall h :: h in responses ==> h < nextHandle && boundary.Some?)
    && (pendingRetries > 0 ==> responseHandler.Some?)
    && (responseHandler.Some? ==> responseHandler.value in arrived)
    && requestsEnded <= requests.Keys
  }

  /// A viewer's arrival keeps the upstream invariant, and so does a response
  /// handler made for an arrived viewer.
  lemma UpstreamOkArrive(requests: map<Handle, UpstreamRequest>, responses: map<Handle, Tail>,
                         nextHandle: Handle, boundary: Option<string>, pendingRetries: nat,
                         responseHandler: Option<ViewerId>, arrived: set<ViewerId>, requestsEnded: set<Handle>,
                         v: ViewerId)
    requires UpstreamOk(requests, responses, nextHandle, boundary, pendingRetries, responseHandler, arrived, requestsEnded)
    ensures UpstreamOk(requests, responses, nextHandle, boundary, pendingRetries,
                       responseHandler, arrived + {v}, requestsEnded)
    ensures UpstreamOk(requests, responses, nextHandle, boundary, pendingRetries,
                       Some(v), arrived + {v}, requestsEnded)
  {
  }

  /// Marking an issued request as ended keeps the invariant.
  lemma UpstreamOkEndRequest(requests: map<Handle, UpstreamRequest>, responses: map<Handle, Tail>,
                             nextHandle: Handle, boundary: Option<string>, pendingRetries: nat,
                             responseHandler: Option<ViewerId>, arrived: set<ViewerId>, requestsEnded: set<Handle>,
                             h: Handle)
    requires UpstreamOk(requests, responses, nextHandle, boundary, pendingRetries, responseHandler, arrived, requestsEnded)
    requires h in requests
    ensures UpstreamOk(requests, responses, nextHandle, boundary, pendingRetries,
                       responseHandler, arrived, requestsEnded + {h})
  {
  }

  /// Issuing a request under a fresh handle keeps the invariant.
  lemma UpstreamOkIssue(requests: map<Handle, UpstreamRequest>, responses: map<Handle, Tail>,
                        nextHandle: Handle, boundary: Option<string>, pendingRetries: nat,
                        responseHandler: Option<ViewerId>, arrived: set<ViewerId>, requestsEnded: set<Handle>,
                        r: UpstreamRequest)
    requires UpstreamOk(requests, responses, nextHandle, boundary, pendingRetries, responseHandler, arrived, requestsEnded)
    requires responseHandler.Some? && r.handlerViewer in arrived
    ensures nextHandle !in requests
    ensures UpstreamOk(requests[nextHandle := r], responses, nextHandle + 1, boundary, pendingRetries,
                       responseHandler, arrived, requestsEnded)
  {
  }

  /// A response under a fresh handle, with its boundary, keeps the invariant.
  lemma UpstreamOkRespond(requests: map<Handle, UpstreamRequest>, responses: map<Handle, Tail>,
                          nextHandle: Handle, boundary: Option<string>, pendingRetries: nat,
                          responseHandler: Option<ViewerId>, arrived: set<ViewerId>, requestsEnded: set<Handle>,
                          b: string)
    requires UpstreamOk(requests, responses, nextHandle, boundary, pendingRetries, responseHandler, arrived, requestsEnded)
    ensures nextHandle !in responses
    ensures UpstreamOk(requests, responses[nextHandle := NoTail], nextHandle + 1, Some(b), pendingRetries,
                       responseHandler, arrived, requestsEnded)
  {
  }

  /// `after` is `before` with `res.end()` called on every viewer of `s`:
  /// exactly those viewers are ended and nothing else about any viewer
  /// changes.
  ghost predicate EndedExactly(before: map<ViewerId, Viewer>, after: map<ViewerId, Viewer>, s: seq<ViewerId>)
  {
    && after.Keys == before.Keys
    && forall v :: v in before ==> after[v] == if v in s then before[v].(ended := true) else before[v]
  }

  /// Ending nobody changes nothing.
  lemma EndedNone(viewers: map<ViewerId, Viewer>)
    ensures EndedExactly(viewers, viewers, [])
  {
  }

  /// Ending one more viewer, the one in front of those already ended, from
  /// the end of a list towards its start. A viewer listed twice is ended
  /// twice, which is the same as once.
  lemma EndedOneMore(before: map<ViewerId, Viewer>, mid: map<ViewerId, Viewer>, s: seq<ViewerId>, i: nat)
    requires i < |s| && s[i] in mid
    requires EndedExactly(before, mid, s[i + 1..])
    ensures EndedExactly(before, mid[s[i] := mid[s[i]].(ended := true)], s[i..])
  {
    forall v | v in before
      ensures mid[s[i] := mid[s[i]].(ended := true)][v] == if v in s[i..] then before[v].(ended := true) else before[v]
    {
      assert v in s[i..] <==> v == s[i] || v in s[i + 1..] by {
        assert s[i..] == [s[i]] + s[i + 1..];
      }
    }
  }

  /// What `res.write` sends one viewer of the audience for a forwarded chunk
  /// whose first marker of boundary `b` is at `p`: a pending viewer is sent
  /// the chunk from the marker on and joins at `b`, or is sent nothing when
  /// there is no marker; a joined viewer is sent the whole chunk.
  function DeliverTo(viewer: Viewer, pending: bool, fwd: seq<byte>, b: string, p: int): Viewer
  {
    if !pending then viewer.(written := viewer.written + fwd)
    else if 0 <= p <= |fwd| then viewer.(written := viewer.written + fwd[p..], joinedWith := Some(b))
    else viewer
  }

  /// A delivery at the chunk's first marker only appends to what the viewer
  /// was sent: a joined viewer gets the whole chunk; a pending viewer gets a
  /// suffix of it that starts with the marker, and joins at its boundary, or
  /// nothing at all when the chunk holds no marker.
  lemma DeliverToReceives(viewer: Viewer, pending: bool, fwd: seq<byte>, b: string)
    ensures var r := DeliverTo(viewer, pending, fwd, b, IndexOf(fwd, Marker(b), 0));
      && viewer.written <= r.written
      && r.headBoundary == viewer.headBoundary && r.ended == viewer.ended
      && (!pending ==> r.written[|viewer.written|..] == fwd && r.joinedWith == viewer.joinedWith)
      && (pending && IndexOf(fwd, Marker(b), 0) >= 0 ==>
            && r.joinedWith == Some(b)
            && Marker(b) <= r.written[|viewer.written|..]
            && r.written[|viewer.written|..] == fwd[|fwd| - (|r.written| - |viewer.written|)..])
      && (pending && IndexOf(fwd, Marker(b), 0) < 0 ==> r == viewer)
  {
    var p := IndexOf(fwd, Marker(b), 0);
    var r := DeliverTo(viewer, pending, fwd, b, p);
    if pending && p >= 0 {
      assert r.written[|viewer.written|..] == fwd[p..];
      assert OccursAt(fwd, Marker(b), p);
      assert fwd[p..][..|Marker(b)|] == fwd[p..p + |Marker(b)|];
    } else if !pending {
      assert r.written[|viewer.written|..] == fwd;
    }
  }

  /// The data handler's fan-out loop over the viewers of `s`.
  function FanOut(viewers: map<ViewerId, Viewer>, pending: seq<ViewerId>, s: seq<ViewerId>,
                  fwd: seq<byte>, b: string, p: int): (r: map<ViewerId, Viewer>)
    ensures r.Keys == viewers.Keys
  {
    if s == [] then viewers
    else
      var w := FanOut(viewers, pending, s[1..], fwd, b, p);
      if s[0] in w then w[s[0] := DeliverTo(w[s[0]], s[0] in pending, fwd, b, p)] else w
  }

  /// Over a list without duplicates, every listed viewer receives its
  /// delivery once and every other viewer receives nothing.
  lemma {:induction false} FanOutDelivers(viewers: map<ViewerId, Viewer>, pending: seq<ViewerId>, s: seq<ViewerId>,
                                          fwd: seq<byte>, b: string, p: int)
    requires NoDuplicates(s)
    ensures forall v :: v in viewers && v in s ==>
      FanOut(viewers, pending, s, fwd, b, p)[v] == DeliverTo(viewers[v], v in pending, fwd, b, p)
    ensures forall v :: v in viewers && v !in s ==> FanOut(viewers, pending, s, fwd, b, p)[v] == viewers[v]
  {
    if s != [] {
      assert NoDuplicates(s[1..]) by {
        forall i, j | 0 <= i < j < |s| - 1 ensures s[1..][i] != s[1..][j] {
          assert s[1..][i] == s[i + 1] && s[1..][j] == s[j + 1];
        }
      }
      assert s[0] !in s[1..] by {
        forall j | 0 <= j < |s| - 1 ensures s[1..][j] != s[0] {
          assert s[1..][j] == s[j + 1];
        }
      }
      FanOutDelivers(viewers, pending, s[1..], fwd, b, p);
      assert forall v :: v in s <==> v == s[0] || v in s[1..];
    }
  }

  /// Remembering a response's last bytes keeps the upstream invariant.
  lemma UpstreamOkTail(requests: map<Handle, UpstreamRequest>, responses: map<Handle, Tail>,
                       nextHandle: Handle, boundary: Option<string>, pendingRetries: nat,
                       responseHandler: Option<ViewerId>, arrived: set<ViewerId>, requestsEnded: set<Handle>,
                       rsp: Handle, t: Tail)
    requires UpstreamOk(requests, responses, nextHandle, boundary, pendingRetries, responseHandler, arrived, requestsEnded)
    requires rsp in responses
    ensures UpstreamOk(requests, responses[rsp := t], nextHandle, boundary, pendingRetries,
                       responseHandler, arrived, requestsEnded)
  {
  }
}
