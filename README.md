# mjpeg-proxy relay engine in Dafny

`mjpeg-proxy` relays one upstream MJPEG stream, a `multipart/x-mixed-replace`
HTTP response, to any number of downstream viewers over a single upstream
connection. This project models the relay engine of `mjpeg-proxy.js` and
proves properties of the model:

- **Boundary extraction** (`Boundary`). `extractBoundary` reads the boundary
  token out of the upstream `Content-Type` value. It uses JavaScript `indexOf`,
  `substring` and `replace`; the module models that code, not the parameter
  grammar of section 5.1.1 of RFC 2046. This includes the case where
  `boundary=` is missing, the search position is -1, and `substring` swaps its
  arguments.
- **Delimiter normalisation** (`FrameRewriter`). RFC 2046 requires a multipart
  delimiter to be preceded by CR LF. For each upstream chunk, the data handler
  finds the first `--<boundary>`. If the two bytes before it are not CR LF, it
  inserts CR LF there. For a marker at the start of the chunk, those two bytes
  are the last two of the previous chunk. The two remembered bytes are a
  `Tail` value.
- **The relay session** (`SessionState`, `ProxySession`). The class
  `MjpegProxy` holds the session's fields and has one method per Node
  callback:
  - a viewer arriving;
  - the upstream response arriving;
  - a data chunk;
  - end and close of the response;
  - the first request's error;
  - a retry timer firing;
  - a retry request's error;
  - a viewer's connection closing.

  Viewers and upstream requests and responses are identified by numbers. What
  each viewer is sent is kept in a ghost log, and so are the `destroy()` and
  `.end()` calls. Two invariants over all this, `ViewersOk` and `UpstreamOk`,
  are proved preserved by every event.
- **Scenarios** (`ScenarioStates`, `ProxyScenarios`). These drive a fresh
  session through two whole runs. In the first, `n` viewers share one upstream
  request and the response is destroyed once when the last of them leaves. In
  the second, ten failed retries end the viewer and a later viewer starts a new
  cycle from attempt 1.

`JsText` holds the JavaScript primitives the code relies on:
- string and Buffer `indexOf` with its clamped start position;
- `substring`;
- the UTF-8 encoding of `new Buffer(string)`;
- the UTF-16 `length` of a string.

Bytes are a `byte` newtype (0..255). Strings are `seq<char>`.

Behaviour of the code a reader might not expect, which the model keeps:

- The bytes remembered after a chunk are taken from the rewritten chunk.
  For the corrected splice, and so for every ASCII boundary,
  `FixChunkKeepsTail` proves that these are the original chunk's last two
  bytes. Under the code's own splice with a non-ASCII boundary they can
  differ (see "## Findings").
- A marker at offset 1 is never corrected.
- The bytes before the marker are kept. None are dropped.
- Retry exhaustion is decided in the retry request's error listener, not when
  the timer fires. The limit is reached at the tenth retry failure, which is
  the eleventh failure counting the first request.
- Retry timers are never cancelled. A timer that fires while a request is
  current does nothing.
- The retry count goes back to 0 only in the first request's error listener.
- A viewer that arrives while a request is current is registered at once, even
  before any response. Its header carries whatever `self.boundary` holds at
  that moment: the text `null` before the session's first response, and
  afterwards the boundary of the last response received, since the field is
  never reset.

## Model

| member | source | states |
|---|---|---|
| JsText.IndexOf | mjpeg-proxy.js:10-14 | `indexOf` returns the first offset at or after the clamped start where the pattern occurs, and -1 exactly when it occurs nowhere from there |
| JsText.Substring | mjpeg-proxy.js:18 | `substring` gives as many characters as lie between its two clamped positions, and for positions in order within the string exactly the text between them |
| JsText.SubstringSwap | mjpeg-proxy.js:18 | `substring` does not depend on the order of its two positions, and a position outside the string acts as the nearest end |
| JsText.RemoveAt | mjpeg-proxy.js:150-153 | `splice(i, 1)` leaves one element fewer: the ones before `i` in place and the ones after it moved down by one |
| JsText.EncodeChar | mjpeg-proxy.js:56-60 | one character becomes one to four bytes; a single byte, equal to its code, exactly for ASCII; only bytes of 0x80 and above for any other character |
| JsText.Utf8Append | mjpeg-proxy.js:60 | the Buffer of a concatenation of strings is the concatenation of their Buffers |
| JsText.Utf8Ascii | mjpeg-proxy.js:55-61 | for ASCII text, the Buffer has one byte per character, equal to its code, and the JavaScript `length` is the same number |
| JsText.Utf16LengthAtMostUtf8 | mjpeg-proxy.js:55-61 | the JavaScript `length` of a string is never more than the number of bytes of its Buffer |
| Boundary.RemoveQuotes | mjpeg-proxy.js:18 | after `.replace(/"/gi, '')` no double quote is left |
| Boundary.RemoveQuotesCounts | mjpeg-proxy.js:18 | the quote removal deletes the double quotes and nothing else: every other character keeps its number of occurrences |
| Boundary.StripLeadingDashes | mjpeg-proxy.js:18 | `.replace(/^\-\-/gi, '')` deletes one leading `--` exactly when the text starts with `--`, otherwise it leaves the text alone |
| Boundary.ExtractBoundary | mjpeg-proxy.js:9-19 | the extracted token never contains a double quote |
| Boundary.IndexOfChar | mjpeg-proxy.js:11-14 | a one-character `indexOf` finds the first position of that character at or after the start position, or -1 exactly when there is none |
| Boundary.EndPosition | mjpeg-proxy.js:11-17 | the end index the code computes is where the value ends: the first `;` after the start; failing that, the first carriage return; failing that, the end of the header. A `;` wins over an earlier carriage return |
| Boundary.ExtractBoundaryWhenPresent | mjpeg-proxy.js:10-18 | with `boundary=` first found at `i`, the token is the text from `i + 9` to the value's end with its quotes removed and then one leading `--` removed |
| Boundary.ExtractBoundaryWhenAbsent | mjpeg-proxy.js:10-18 | without `boundary=`, the end is searched from offset 0 and the token is the text between offset 8 and that end, in whichever order `substring` puts them |
| Boundary.ExtractBoundaryUnquoted | mjpeg-proxy.js:10-18 | for a value with no double quotes, the token is the value with one leading `--` removed |
| Boundary.ExtractBoundaryOfParameter | mjpeg-proxy.js:10-18 | a header that ends in `boundary=` followed by a plain token, with no `b` before it, gives back exactly that token |
| Boundary.ExtractBoundaryDashedExample | mjpeg-proxy.js:10-18 | `multipart/x-mixed-replace;boundary=--myboundary\r\n` gives `myboundary` |
| Boundary.ExtractBoundaryQuotedExample | mjpeg-proxy.js:10-18 | `multipart/x-mixed-replace; boundary="frame"` gives `frame` |
| FrameRewriter.Marker | mjpeg-proxy.js:55-56 | the delimiter searched for in a chunk is the bytes `--` followed by the UTF-8 bytes of the boundary |
| FrameRewriter.TailOf | mjpeg-proxy.js:66-67 | the remembered bytes are the chunk's last and second-to-last bytes, present exactly when the chunk is that long |
| FrameRewriter.TailOfSuffix | mjpeg-proxy.js:66-67 | what is remembered depends only on the last two bytes: anything before them is forgotten |
| FrameRewriter.FixChunk | mjpeg-proxy.js:54-63 | the corrected splice forwards the chunk either unchanged or with CR LF inserted right before the chunk's first marker, and in no other way |
| FrameRewriter.FixOffset | mjpeg-proxy.js:54-58 | CR LF is inserted, if at all, only when both remembered bytes exist, and then at the first marker, when it is not at offset 1 and not already preceded by CR LF |
| FrameRewriter.FixChunkUnchangedIff | mjpeg-proxy.js:54-63 | the chunk is forwarded unchanged exactly when: a remembered byte is missing, there is no marker, the marker is at offset 1, or the marker is already preceded by CR LF (in the chunk, or by the remembered bytes at offset 0) |
| FrameRewriter.FixChunkInsertsCrlf | mjpeg-proxy.js:58-62 | when the fix applies to the first marker at `p`, the forwarded chunk is the chunk up to `p`, then CR LF, then the rest, and it is exactly two bytes longer |
| FrameRewriter.FixChunkKeepsTail | mjpeg-proxy.js:59-67 | the insertion comes before a suffix at least as long as the marker, so the remembered last two bytes of the rewritten chunk are those of the original chunk |
| FrameRewriter.InsertionMovesFirstOccurrence | mjpeg-proxy.js:59-62 | inserting CR LF before the first marker, when the marker holds no CR or LF, moves that first occurrence two bytes on and creates no earlier one |
| FrameRewriter.FixChunkPrecedesMarkerWithCrlf | mjpeg-proxy.js:55-62 | for a boundary without CR or LF, after rewriting, the first marker of the chunk is preceded by CR LF, unless it sits at offset 1 or a remembered byte is missing |
| FrameRewriter.FixChunkIdempotent | mjpeg-proxy.js:56-62 | rewriting an already rewritten chunk changes nothing, for a boundary without CR or LF |
| FrameRewriter.FixChunkAsWrittenAscii | mjpeg-proxy.js:59-62 | for an ASCII boundary, the code's splice, cut by the JavaScript length of the marker, is the corrected one |
| FrameRewriter.FixChunkAsWrittenRepeats | mjpeg-proxy.js:59-62 | for any boundary, the code's splice is the corrected chunk with the marker's bytes beyond its UTF-16 length repeated after it; it never loses a byte |
| FrameRewriter.FixChunkAsWrittenRepeatsMarkerByte | mjpeg-proxy.js:59-67 | on the boundary `é`, the code's splice forwards byte A9 twice, while the corrected splice inserts only CR LF; the code then remembers A9 A9 where the original chunk ends C3 A9 |
| SessionState.ArrayIndexOf | mjpeg-proxy.js:147 | array `indexOf` gives the first index holding the viewer, or -1 exactly when it is not listed |
| SessionState.WithoutCounts | mjpeg-proxy.js:147-154 | the guarded `splice(indexOf(x), 1)` takes away one occurrence of `x` when there is one, keeps every other element, and leaves a list without `x` untouched |
| SessionState.WithoutMembers | mjpeg-proxy.js:147-154 | removing a viewer from a list without duplicates keeps every other viewer, drops that one, and leaves the list free of duplicates |
| SessionState.WithoutAt | mjpeg-proxy.js:147-150 | in a list without duplicates, removing the viewer found at `i` removes index `i` |
| SessionState.NoDuplicatesAppend | mjpeg-proxy.js:175-176 | pushing a viewer not yet listed keeps a list free of duplicates |
| SessionState.ContentTypeRoundTrip | mjpeg-proxy.js:172 | the `Content-Type` written to a viewer, read back with `extractBoundary`, gives the boundary it was made from, for a boundary with no `;`, carriage return or double quote that does not start with `--` |
| SessionState.ViewersOkArrive | mjpeg-proxy.js:35-40 | a viewer arriving keeps the viewer invariant |
| SessionState.ViewersOkRegister | mjpeg-proxy.js:166-176 | registering a viewer whose headers are not sent keeps the viewer invariant: it is pending, listed once in both lists, and was sent nothing |
| SessionState.ViewersOkRemove | mjpeg-proxy.js:145-154 | removing a viewer from both lists keeps the viewer invariant |
| SessionState.ViewersOkEnd | mjpeg-proxy.js:87-90 | ending a viewer that is no longer listed keeps the viewer invariant |
| SessionState.ViewersOkJoin | mjpeg-proxy.js:73-78 | a pending viewer sent bytes that start with `--<boundary>`, and taken off the pending list, keeps the viewer invariant: it is recorded as joined at that boundary, and its bytes start with that boundary's marker |
| SessionState.ViewersOkAppend | mjpeg-proxy.js:80-81 | a joined viewer sent the whole chunk keeps the viewer invariant |
| SessionState.UpstreamOkArrive | mjpeg-proxy.js:42 | an arrival, and a response handler made for the arrived viewer, keep the upstream invariant |
| SessionState.UpstreamOkIssue | mjpeg-proxy.js:136-143 | issuing a request under a fresh handle for the current response handler keeps the upstream invariant |
| SessionState.UpstreamOkEndRequest | mjpeg-proxy.js:132 | ending an issued request keeps the upstream invariant |
| SessionState.UpstreamOkRespond | mjpeg-proxy.js:44-45 | a response under a fresh handle, with a boundary set, keeps the upstream invariant |
| SessionState.UpstreamOkTail | mjpeg-proxy.js:66-67 | remembering a response's last bytes keeps the upstream invariant |
| SessionState.EndedNone | mjpeg-proxy.js:87-91 | before the end loop runs, no viewer has been ended |
| SessionState.EndedOneMore | mjpeg-proxy.js:87-91 | ending one more viewer of the list, from the back towards the front, extends "exactly the viewers of this suffix are ended, nothing else changed" by one |
| SessionState.DeliverToReceives | mjpeg-proxy.js:72-82 | a delivery only appends to what the viewer was sent: a joined viewer gets the whole chunk; a pending viewer gets a suffix of the chunk that starts with `--<boundary>` and joins at that boundary when the chunk holds the marker, and nothing otherwise; its header and end flag do not change |
| SessionState.FanOut | mjpeg-proxy.js:69-83 | the fan-out over a list of viewers keeps the set of registered viewers |
| SessionState.FanOutDelivers | mjpeg-proxy.js:69-83 | over a list without duplicates, every listed viewer receives its own delivery exactly once and every other viewer receives nothing |
| ProxySession.HeaderBeforeFirstResponse | mjpeg-proxy.js:166-172 | a viewer registered before the first response gets a header from which `extractBoundary` reads the boundary `null` |
| ProxySession.MjpegProxy.constructor | mjpeg-proxy.js:21-33 | a new session has empty lists, no boundary, request or response, and satisfies the invariant |
| ProxySession.MjpegProxy.Create | mjpeg-proxy.js:21-24 | construction fails exactly when no source URL, or the empty one, is given; otherwise the session is fresh and initial, with `forceHttps` recorded |
| ProxySession.MjpegProxy.CreateRequest | mjpeg-proxy.js:136-143 | a request is issued under a fresh handle, for the current response handler, with the given error listener, over https exactly when forced |
| ProxySession.MjpegProxy.NewClient | mjpeg-proxy.js:166-184 | a viewer whose headers were sent is left alone; otherwise its header carries the current boundary text (`null` before any response) and it is appended to both lists |
| ProxySession.MjpegProxy.CleanAudienceResponse | mjpeg-proxy.js:145-164 | the viewer leaves both lists, the others stay in order; when the audience is then empty, the request is forgotten and the current response, if any, destroyed, otherwise neither changes |
| ProxySession.MjpegProxy.RemoveFromLists | mjpeg-proxy.js:147-154 | the viewer is spliced out of the audience and out of the pending list, wherever it is listed |
| ProxySession.MjpegProxy.Teardown | mjpeg-proxy.js:156-162 | once nobody is listed, the request is forgotten and the current response, if any, destroyed |
| ProxySession.MjpegProxy.EndAudience | mjpeg-proxy.js:87-91 | every listed viewer, and no other, is ended; both lists end empty; the response is destroyed once, if there was an audience |
| ProxySession.MjpegProxy.EndAudienceStep | mjpeg-proxy.js:87-91 | one turn of the end loop: the last still-listed viewer is ended and leaves the audience, the ended viewers grow by exactly that one, and the teardown happens only at the final turn |
| ProxySession.MjpegProxy.EndViewer | mjpeg-proxy.js:88-90 | the last listed viewer is ended and leaves the audience and the pending list; when the audience is then empty the request is forgotten and the response destroyed once, otherwise neither changes |
| ProxySession.MjpegProxy.ProxyRequest | mjpeg-proxy.js:35-40 | with a request current, the viewer is registered at once and no request is issued; otherwise a first request is issued for this viewer and ended, and nobody is registered yet |
| ProxySession.MjpegProxy.SendSourceRequest | mjpeg-proxy.js:99-132 | the response handler is made for the viewer, the request is issued with the first error listener, becomes the current request, and is ended |
| ProxySession.MjpegProxy.ViewerClosed | mjpeg-proxy.js:179-182 | a registered viewer's close removes it from both lists, with the teardown when it was the last one |
| ProxySession.MjpegProxy.ResponseArrives | mjpeg-proxy.js:42-47 | the response becomes the global one with the boundary extracted from its `Content-Type`; its remembered bytes start empty; the handler's viewer is registered with that boundary unless its headers were already sent |
| ProxySession.MjpegProxy.TakeResponse | mjpeg-proxy.js:44-47 | as `ResponseArrives`, for an already extracted boundary |
| ProxySession.MjpegProxy.AcceptResponse | mjpeg-proxy.js:44-45 | the response is taken under a fresh handle as the global one, with the given boundary and no remembered bytes |
| ProxySession.MjpegProxy.Deliver | mjpeg-proxy.js:70-82 | one viewer of the audience receives its delivery of the chunk; a pending viewer that found the marker leaves the pending list and no other change is made |
| ProxySession.MjpegProxy.OnData | mjpeg-proxy.js:52-84 | the chunk is rewritten by the corrected splice, its last two bytes remembered; every viewer receives the fan-out of the rewritten chunk; the audience is unchanged; when the chunk holds a marker, no viewer is pending afterwards |
| ProxySession.MjpegProxy.Broadcast | mjpeg-proxy.js:69-83 | the loop from the last viewer to the first delivers exactly the fan-out of the chunk and empties the pending list when the chunk holds a marker |
| ProxySession.MjpegProxy.OnEnd | mjpeg-proxy.js:85-92 | at the end of the response, every viewer is ended and both lists end empty |
| ProxySession.MjpegProxy.OnClose | mjpeg-proxy.js:93-96 | the close of any response forgets the current request |
| ProxySession.MjpegProxy.OnFirstError | mjpeg-proxy.js:101-105 | the first request's error forgets the request, sets the retry count to 0 and schedules one retry |
| ProxySession.MjpegProxy.OnRetryTimer | mjpeg-proxy.js:106-112 | a retry firing with no current request counts one more attempt and issues a request with the retry error listener; with a current request it does nothing but consume the timer |
| ProxySession.MjpegProxy.OnRetryError | mjpeg-proxy.js:113-127 | a retry's error forgets the request; below 10 attempts it schedules another retry and changes nothing else; at 10 it schedules nothing, ends every viewer and empties both lists, and destroys the current response once if there was an audience, otherwise destroys nothing |
| ProxyScenarios.Connect | mjpeg-proxy.js:35-41 | the first viewer of a new session issues request 0 for itself and is not yet registered |
| ProxyScenarios.StartStream | mjpeg-proxy.js:42-47 | once request 0's response arrives, viewer 0 is registered on response 1 |
| ProxyScenarios.Respond | mjpeg-proxy.js:42-47 | the response registers the handler's viewer and changes neither the requests nor the arrivals |
| ProxyScenarios.Join | mjpeg-proxy.js:38-39 | a viewer arriving while the request is current is registered at once behind the others, with no new request |
| ProxyScenarios.JoinViewers | mjpeg-proxy.js:38-39 | `n` viewers in turn share request 0 and are listed in arrival order |
| ProxyScenarios.CloseNext | mjpeg-proxy.js:179-182 | the first listed viewer closes; the response is destroyed only when it was the last |
| ProxyScenarios.CloseViewers | mjpeg-proxy.js:145-164 | after all `n` viewers close, the audience is empty, the request is forgotten and response 1 was destroyed exactly once |
| ProxyScenarios.SharedUpstream | mjpeg-proxy.js:35-47 | `n` viewers cause exactly one upstream request; the audience reaches `n`; one teardown follows the last close |
| ProxyScenarios.FirstRequestFails | mjpeg-proxy.js:101-105 | a failure of the streaming request schedules one retry with the count at 0 and the viewer still attached |
| ProxyScenarios.RetryFails | mjpeg-proxy.js:106-127 | one retry fires and fails: the count goes up by one, and at the tenth the viewer is ended and nothing is scheduled |
| ProxyScenarios.RetryUntilExhausted | mjpeg-proxy.js:113-127 | ten failed retries end the viewer and leave no retry scheduled |
| ProxyScenarios.RestartAfterExhaustion | mjpeg-proxy.js:99-111 | after exhaustion, a new viewer issues a fresh first request whose failure leads to retry attempt 1 |
| ProxyScenarios.RetriesRunOut | mjpeg-proxy.js:101-131 | ten retries, then none scheduled and no viewer attached; the next cycle starts again at attempt 1 |

## Left out

- Sockets and HTTP: `http.request`, `https.request` and `url.parse` are foreign calls (mjpeg-proxy.js:1-3, 26, 136-143). A request is a fresh handle that records its response handler, error listener and the https flag.
- `writeHead`, `res.write`, `res.end`, `destroy()` and `.end()` are I/O. They become ghost logs: per-viewer bytes, header boundary and end flag, plus the lists of destroyed responses and ended requests.
- Timers: `setTimeout(retry, 500)` is a count of pending retry timers. The environment fires one with `OnRetryTimer`. The 500 ms delay and wall-clock time are not modelled.
- Logging with `debug` and `console.log` changes no state and is not modelled.
- `routes.js` and `recorders.js` are not part of this model. They are route wiring and a file recorder, with no relay logic.
- Concurrency: Node runs the callbacks one at a time. Each event is one method call, in whatever order the environment chooses.
- The environment may call any listener any number of times. So no bound on the retry count is proved over all event orders: a timer left pending by an earlier episode can still fire. The bound is shown for the run in `ProxyScenarios.RetriesRunOut`.
- ProxySession.MjpegProxy.NewClient: records only the boundary text of the `Content-Type` header. Status 200 and the fixed `Expires`, `Cache-Control` and `Pragma` headers are constants with no behaviour.
- ProxySession.MjpegProxy.Create: a given URL is accepted whatever it is, because `url.parse` is not modelled. An absent `options` object, which the code turns into `{}`, is the `Options` value with no URL.
- `self.retryCount` starts out `undefined` in the code. It is 0 in the model. Nothing reads it before the first error listener sets it to 0.
- A viewer that closes before it is registered has no `'close'` listener, so nothing happens. There is no method for that event.
- ResponseArrives: takes the `content-type` header as a string. A response without that header makes `extractBoundary` throw a TypeError inside the response handler; that path is not modelled.
- Positions in a JavaScript string are UTF-16 units, while the model counts characters. The two differ only once a character outside the Basic Multilingual Plane comes before the position, for instance for `substring(8, ...)` when `boundary=` is missing. `extractBoundary` is modelled on character positions.
- ProxySession.MjpegProxy.OnData: forwards the corrected splice `FixChunk`, not the code's `FixChunkAsWritten`. For a boundary with a non-ASCII character the code writes, and remembers, different bytes (see "## Findings"); `FixChunkAsWrittenAscii` proves the two the same for every ASCII boundary, and `FixChunkAsWrittenRepeats` states exactly what the code writes otherwise.
- A Buffer index out of range reads as `undefined`, and `undefined != null` is false. The model represents that case as a missing remembered byte.

## Findings

| source | as written | input that shows it | evidently intended | confidence | as-written member | corrected member |
|---|---|---|---|---|---|---|
| mjpeg-proxy.js:59-62 | the rest of the chunk is cut at `p + oldheader.length`, the UTF-16 length of `'--' + boundary`, while the marker was found, and is re-inserted, as UTF-8 bytes | boundary `é` (U+00E9), remembered bytes `41 41`, chunk `41 41 2D 2D C3 A9`: the output is `41 41 0D 0A 2D 2D C3 A9 A9`, byte A9 twice | insert CR LF before the marker and forward every original byte once: `41 41 0D 0A 2D 2D C3 A9` | not executed | FrameRewriter.FixChunkAsWrittenRepeatsMarkerByte | FrameRewriter.FixChunkInsertsCrlf |

The session forwards `FrameRewriter.FixChunk`, the corrected splice.
`FrameRewriter.FixChunkAsWrittenAscii` proves that it agrees with the code's
splice for every ASCII boundary. `FrameRewriter.FixChunkAsWrittenRepeats`
states the general effect of the code's splice, and
`FrameRewriter.FixChunkAsWrittenRepeatsMarkerByte` shows that the code then
also remembers different bytes for the next chunk.
