/// The CRLF fixer of the upstream data handler. Section 5.1.1 of RFC 2046
/// requires a multipart delimiter to be preceded by CRLF; some encoders omit
/// it and some decoders insist on it. For each chunk the handler looks for the
/// first `--<boundary>` and inserts CR LF before it when the two bytes before
/// it (inside the chunk, or the two remembered from the previous chunk when
/// the marker opens the chunk) are not CR LF. Only the first marker of a
/// chunk is ever considered.
module FrameRewriter {
  import opened JsText

  /// The handler's `lastByte1` (last byte of the previous chunk) and
  /// `lastByte2` (the byte before it). Both are absent before the first chunk
  /// of a response; `lastByte2` is absent after a one-byte chunk and both
  /// after an empty one.
  datatype Tail = Tail(lastByte1: Option<byte>, lastByte2: Option<byte>)

  const NoTail := Tail(None, None)

  /// What the handler remembers after a chunk: `chunk[chunk.length - 1]`
  /// and `chunk[chunk.length - 2]`, undefined when out of range.
  function TailOf(chunk: seq<byte>): (r: Tail)
    ensures r.lastByte1.Some? <==> |chunk| >= 1
    ensures r.lastByte2.Some? <==> |chunk| >= 2
    ensures |chunk| >= 2 ==> chunk[|chunk| - 2..] == [r.lastByte2.value, r.lastByte1.value]
    ensures |chunk| == 1 ==> chunk == [r.lastByte1.value]
  {
    Tail(if |chunk| >= 1 then Some(chunk[|chunk| - 1]) else None,
         if |chunk| >= 2 then Some(chunk[|chunk| - 2]) else None)
  }

  /// Only the last two bytes count: anything in front of them is forgotten.
  lemma TailOfSuffix(front: seq<byte>, back: seq<byte>)
    requires |back| >= 2
    ensures TailOf(front + back) == TailOf(back)
  {
    var s := front + back;
    assert s[|s| - 1] == back[|back| - 1] && s[|s| - 2] == back[|back| - 2];
  }

  /// The bytes of the delimiter `'--' + boundary` as a Buffer searches for it.
  function Marker(boundary: string): (m: seq<byte>)
    ensures m == [Dash, Dash] + Utf8(boundary)
  {
    Utf8Append("--", boundary);
    Utf8("--" + boundary)
  }

  /// The two bytes before offset `p` are CR LF: the remembered ones when
  /// `p` is 0, the chunk's own when `p` is at least 2.
  predicate PrecededByCrlf(t: Tail, chunk: seq<byte>, p: int)
  {
    (p == 0 && t.lastByte2 == Some(CR) && t.lastByte1 == Some(LF)) ||
    (2 <= p <= |chunk| && chunk[p - 2] == CR && chunk[p - 1] == LF)
  }

  /// The cases in which the chunk is left alone: no remembered bytes, no
  /// marker, the marker at offset 1 (a case the code's test skips), or a
  /// marker already preceded by CR LF.
  ghost predicate KeepsChunk(t: Tail, chunk: seq<byte>, m: seq<byte>)
  {
    t.lastByte1.None? || t.lastByte2.None? || AbsentFrom(chunk, m, 0) ||
    exists p :: FirstOccurrence(chunk, m, 0, p) && (p == 1 || PrecededByCrlf(t, chunk, p))
  }

  /// The offset at which the handler inserts CR LF, or -1 when it does not.
  function FixOffset(t: Tail, chunk: seq<byte>, boundary: string): (p: int)
    ensures p == -1 ||
            (t.lastByte1.Some? && t.lastByte2.Some? && p != 1 &&
             FirstOccurrence(chunk, Marker(boundary), 0, p) && !PrecededByCrlf(t, chunk, p))
  {
    if t.lastByte1.None? || t.lastByte2.None? then -1
    else
      var p := IndexOf(chunk, Marker(boundary), 0);
      if (p == 0 && !(t.lastByte2 == Some(CR) && t.lastByte1 == Some(LF))) ||
         (p > 1 && !(chunk[p - 2] == CR && chunk[p - 1] == LF))
      then p
      else -1
  }

  /// The chunk the handler forwards, with CR LF inserted before the marker
  /// when `FixOffset` says so. This is the corrected splice (see
  /// `FixChunkAsWritten` for the code's own).
  function FixChunk(t: Tail, chunk: seq<byte>, boundary: string): (r: seq<byte>)
    ensures r == chunk ||
            exists p :: FirstOccurrence(chunk, Marker(boundary), 0, p) && r == chunk[..p] + [CR, LF] + chunk[p..]
  {
    var p := FixOffset(t, chunk, boundary);
    if p >= 0 then chunk[..p] + [CR, LF] + chunk[p..] else chunk
  }

  /// The splice as the code writes it: the bytes before the marker, then
  /// `new Buffer('\r\n--' + boundary)`, then the chunk from
  /// `p + oldheader.length`, where `oldheader.length` counts UTF-16 units of
  /// the marker string rather than its UTF-8 bytes.
  function FixChunkAsWritten(t: Tail, chunk: seq<byte>, boundary: string): seq<byte>
  {
    var p := FixOffset(t, chunk, boundary);
    if p >= 0 then
      chunk[..p] + Utf8("\r\n--" + boundary) + chunk[Clamp(p + Utf16Length("--" + boundary), |chunk|)..]
    else chunk
  }

  /// The chunk is forwarded unchanged exactly in the cases `KeepsChunk` lists.
  lemma FixChunkUnchangedIff(t: Tail, chunk: seq<byte>, boundary: string)
    ensures FixChunk(t, chunk, boundary) == chunk <==> KeepsChunk(t, chunk, Marker(boundary))
  {
    var m := Marker(boundary);
    var p := FixOffset(t, chunk, boundary);
    if p >= 0 {
      assert |FixChunk(t, chunk, boundary)| == |chunk| + 2;
      forall q | FirstOccurrence(chunk, m, 0, q) ensures q == p {
        FirstOccurrenceUnique(chunk, m, 0, p, q);
      }
    } else if t.lastByte1.Some? && t.lastByte2.Some? {
      var q := IndexOf(chunk, m, 0);
      if q >= 0 {
        assert FirstOccurrence(chunk, m, 0, q) && (q == 1 || PrecededByCrlf(t, chunk, q));
      }
    }
  }

  /// When the remembered bytes exist and the first marker, at `p` but not at
  /// offset 1, is not preceded by CR LF, exactly CR LF is inserted at `p`.
  lemma FixChunkInsertsCrlf(t: Tail, chunk: seq<byte>, boundary: string, p: nat)
    requires t.lastByte1.Some? && t.lastByte2.Some?
    requires FirstOccurrence(chunk, Marker(boundary), 0, p)
    requires p != 1 && !PrecededByCrlf(t, chunk, p)
    ensures FixChunk(t, chunk, boundary) == chunk[..p] + [CR, LF] + chunk[p..]
    ensures |FixChunk(t, chunk, boundary)| == |chunk| + 2
  {
    IndexOfFirst(chunk, Marker(boundary), 0, p);
  }

  /// The insertion happens before a suffix at least as long as the marker,
  /// so the bytes the handler remembers are the original chunk's last two.
  lemma FixChunkKeepsTail(t: Tail, chunk: seq<byte>, boundary: string)
    ensures var p := FixOffset(t, chunk, boundary);
            p >= 0 ==> p + |Marker(boundary)| <= |chunk|
    ensures TailOf(FixChunk(t, chunk, boundary)) == TailOf(chunk)
  {
    var p := FixOffset(t, chunk, boundary);
    if p >= 0 {
      var r := FixChunk(t, chunk, boundary);
      assert |r| == |chunk| + 2;
      assert r[|r| - 1] == chunk[|chunk| - 1];
      assert r[|r| - 2] == chunk[|chunk| - 2];
    }
  }

  /// Inserting CR LF before the first occurrence of a marker that holds no
  /// CR or LF byte and does not start with LF moves that first occurrence
  /// two bytes on, and nothing earlier becomes an occurrence.
  lemma InsertionMovesFirstOccurrence(chunk: seq<byte>, m: seq<byte>, p: nat)
    requires FirstOccurrence(chunk, m, 0, p)
    requires CR !in m && LF !in m && |m| >= 1
    ensures FirstOccurrence(chunk[..p] + [CR, LF] + chunk[p..], m, 0, p + 2)
  {
    var r := chunk[..p] + [CR, LF] + chunk[p..];
    assert r[p + 2..p + 2 + |m|] == chunk[p..p + |m|];
    forall k | 0 <= k < p + 2 ensures !OccursAt(r, m, k) {
      if k + |m| <= p {
        assert r[k..k + |m|] == chunk[k..k + |m|];
        assert !OccursAt(chunk, m, k);
      } else if k <= p {
        assert r[p] == CR;
        assert m[p - k] in m;
        assert k + |m| <= |r| ==> r[k..k + |m|][p - k] == r[p];
      } else {
        assert r[p + 1] == LF;
        assert m[0] in m;
        assert k + |m| <= |r| ==> r[k..k + |m|][0] == r[p + 1];
      }
    }
  }

  /// After rewriting, the first marker of the chunk is preceded by CR LF,
  /// unless it sits at offset 1 or the remembered bytes are missing. The
  /// boundary must not contain CR or LF, or the inserted bytes could be read
  /// as part of an earlier marker.
  lemma FixChunkPrecedesMarkerWithCrlf(t: Tail, chunk: seq<byte>, boundary: string, p: nat)
    requires '\r' !in boundary && '\n' !in boundary
    requires t.lastByte1.Some? && t.lastByte2.Some?
    requires FirstOccurrence(chunk, Marker(boundary), 0, p) && p != 1
    ensures var r := FixChunk(t, chunk, boundary);
            var q := IndexOf(r, Marker(boundary), 0);
            q >= 0 && PrecededByCrlf(t, r, q)
  {
    var m := Marker(boundary);
    IndexOfFirst(chunk, m, 0, p);
    if FixOffset(t, chunk, boundary) >= 0 {
      MarkerHasNoLineBreak(boundary);
      InsertionMovesFirstOccurrence(chunk, m, p);
      IndexOfFirst(FixChunk(t, chunk, boundary), m, 0, p + 2);
    }
  }

  lemma MarkerHasNoLineBreak(boundary: string)
    requires '\r' !in boundary && '\n' !in boundary
    ensures CR !in Marker(boundary) && LF !in Marker(boundary)
  {
    Utf8NoLineBreak(boundary);
  }

  /// Rewriting an already rewritten chunk changes nothing, when the boundary
  /// holds no CR or LF.
  lemma FixChunkIdempotent(t: Tail, chunk: seq<byte>, boundary: string)
    requires '\r' !in boundary && '\n' !in boundary
    ensures FixChunk(t, FixChunk(t, chunk, boundary), boundary) == FixChunk(t, chunk, boundary)
  {
    var p := FixOffset(t, chunk, boundary);
    if p >= 0 {
      var m := Marker(boundary);
      var r := FixChunk(t, chunk, boundary);
      MarkerHasNoLineBreak(boundary);
      InsertionMovesFirstOccurrence(chunk, m, p);
      IndexOfFirst(r, m, 0, p + 2);
      assert r[p] == CR && r[p + 1] == LF;
      assert FixOffset(t, r, boundary) == -1;
    }
  }

  /// For an ASCII boundary the code's splice is the corrected one.
  lemma FixChunkAsWrittenAscii(t: Tail, chunk: seq<byte>, boundary: string)
    requires IsAscii(boundary)
    ensures FixChunkAsWritten(t, chunk, boundary) == FixChunk(t, chunk, boundary)
  {
    var p := FixOffset(t, chunk, boundary);
    if p >= 0 {
      var m := Marker(boundary);
      AsciiMarker(boundary);
      SliceInsideMarker(chunk, m, p, 0);
      assert FixChunkAsWritten(t, chunk, boundary) == chunk[..p] + ([CR, LF] + m) + chunk[p + |m|..];
    }
  }

  /// For an ASCII boundary the replacement text is CR LF and the marker, and
  /// the JavaScript length of `--boundary` is the marker's byte length.
  lemma AsciiMarker(boundary: string)
    requires IsAscii(boundary)
    ensures Utf16Length("--" + boundary) == |Marker(boundary)|
    ensures Utf8("\r\n--" + boundary) == [CR, LF] + Marker(boundary)
  {
    assert IsAscii("--" + boundary) by {
      forall i | 0 <= i < |"--" + boundary| ensures ("--" + boundary)[i] as int < 0x80 {
        if i >= 2 {
          assert ("--" + boundary)[i] == boundary[i - 2];
        }
      }
    }
    Utf8Ascii("--" + boundary);
    Utf8Append("\r\n", "--" + boundary);
    Utf8Append("--", boundary);
    assert "\r\n--" + boundary == "\r\n" + ("--" + boundary);
  }

  /// For any boundary the code's splice forwards the corrected chunk with the
  /// marker's bytes from offset `Utf16Length("--" + boundary)` on repeated
  /// after the marker: it never loses a byte, and it adds one for every byte
  /// by which the JavaScript length undercounts the marker.
  lemma FixChunkAsWrittenRepeats(t: Tail, chunk: seq<byte>, boundary: string)
    ensures var p := FixOffset(t, chunk, boundary);
            var m := Marker(boundary);
            var u := Utf16Length("--" + boundary);
            p >= 0 ==> (u <= |m| &&
              FixChunkAsWritten(t, chunk, boundary) == chunk[..p] + [CR, LF] + m + m[u..] + chunk[p + |m|..])
    ensures |FixChunkAsWritten(t, chunk, boundary)| >= |FixChunk(t, chunk, boundary)|
  {
    var p := FixOffset(t, chunk, boundary);
    if p >= 0 {
      var m := Marker(boundary);
      var u := Utf16Length("--" + boundary);
      SpliceText(boundary);
      SliceInsideMarker(chunk, m, p, u);
      assert FixChunkAsWritten(t, chunk, boundary) == chunk[..p] + ([CR, LF] + m) + chunk[p + u..];
    }
  }

  /// Cutting a chunk `u` bytes into an occurrence of `m` at `p` leaves the
  /// rest of the marker and everything after it.
  lemma SliceInsideMarker(chunk: seq<byte>, m: seq<byte>, p: nat, u: nat)
    requires OccursAt(chunk, m, p) && u <= |m|
    ensures chunk[p + u..] == m[u..] + chunk[p + |m|..]
  {
    assert chunk[p..] == m + chunk[p + |m|..] by {
      assert chunk[p..p + |m|] == m;
    }
    assert chunk[p + u..] == chunk[p..][u..];
  }

  /// The text the code splices in is CR LF and the marker, and the
  /// JavaScript length of `--boundary` is at most the marker's byte length.
  lemma SpliceText(boundary: string)
    ensures Utf8("\r\n--" + boundary) == [CR, LF] + Marker(boundary)
    ensures Utf16Length("--" + boundary) <= |Marker(boundary)|
  {
    Utf16LengthAtMostUtf8("--" + boundary);
    Utf8Append("\r\n", "--" + boundary);
    assert "\r\n--" + boundary == "\r\n" + ("--" + boundary);
    assert Utf8("\r\n") == [CR, LF];
  }

  /// The code's splice on the non-ASCII boundary `é` (one UTF-16 unit, two
  /// UTF-8 bytes C3 A9): the byte A9 is forwarded twice and the chunk grows by
  /// three bytes, where the corrected splice inserts only CR LF; the bytes
  /// remembered for the next chunk are then A9 A9, not the chunk's C3 A9.
  lemma FixChunkAsWrittenRepeatsMarkerByte(t: Tail, chunk: seq<byte>, boundary: string)
    requires boundary == [0xE9 as char]
    requires t == Tail(Some(0x41), Some(0x41))
    requires chunk == [0x41, 0x41, Dash, Dash, 0xC3, 0xA9]
    ensures FixChunkAsWritten(t, chunk, boundary) == [0x41, 0x41, CR, LF, Dash, Dash, 0xC3, 0xA9, 0xA9]
    ensures FixChunk(t, chunk, boundary) == [0x41, 0x41, CR, LF, Dash, Dash, 0xC3, 0xA9]
    ensures TailOf(FixChunkAsWritten(t, chunk, boundary)) == Tail(Some(0xA9), Some(0xA9))
    ensures TailOf(FixChunkAsWritten(t, chunk, boundary)) != TailOf(chunk)
  {
    AcuteMarker(boundary);
    var m := Marker(boundary);
    assert FirstOccurrence(chunk, m, 0, 2) by {
      assert chunk[2..6] == [Dash, Dash, 0xC3, 0xA9];
      assert !OccursAt(chunk, m, 0) by { assert chunk[0] != m[0]; }
      assert !OccursAt(chunk, m, 1) by { assert chunk[1] != m[0]; }
    }
    IndexOfFirst(chunk, m, 0, 2);
  }

  /// The boundary `é`: one UTF-16 unit, two UTF-8 bytes.
  lemma AcuteMarker(boundary: string)
    requires boundary == [0xE9 as char]
    ensures Marker(boundary) == [Dash, Dash, 0xC3, 0xA9]
    ensures Utf16Length("--" + boundary) == 3
    ensures Utf8("\r\n--" + boundary) == [CR, LF, Dash, Dash, 0xC3, 0xA9]
  {
    assert EncodeChar(0xE9 as char) == [0xC3, 0xA9];
    assert Utf8(boundary) == [0xC3, 0xA9];
    var marker := "--" + boundary;
    assert marker[1..][1..] == boundary && boundary[1..] == [];
    assert Utf16Length(boundary) == 1;
    assert Utf16Length(marker[1..]) == 2;
    Utf8Append("\r\n--", boundary);
    assert Utf8("\r\n--") == [CR, LF, Dash, Dash];
  }
}
