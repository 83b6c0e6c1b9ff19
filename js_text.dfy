/// The JavaScript runtime primitives the relay is built from: `indexOf` on
/// strings, arrays and Buffers, `String.prototype.substring`, and the UTF-8
/// encoding that `new Buffer(string)` and `Buffer.indexOf(string)` apply.
module JsText {

  newtype byte = x: int | 0 <= x < 256

  datatype Option<T> = None | Some(value: T)

  const CR: byte := 0x0d
  const LF: byte := 0x0a
  const Dash: byte := 0x2d

  /// Clamps a position into 0..n, as `indexOf` and `substring` do with theirs.
  function Clamp(i: int, n: nat): (r: nat)
    ensures r <= n
    ensures 0 <= i <= n ==> r == i
  {
    if i < 0 then 0 else if i > n then n else i
  }

  /// `pat` occurs in `s` starting at offset `k`.
  predicate OccursAt<T(==)>(s: seq<T>, pat: seq<T>, k: int)
  {
    0 <= k && k + |pat| <= |s| && s[k..k + |pat|] == pat
  }

  /// `r` is the first offset at or after `from` where `pat` occurs.
  ghost predicate FirstOccurrence<T>(s: seq<T>, pat: seq<T>, from: nat, r: int)
  {
    from <= r && OccursAt(s, pat, r) && forall k :: from <= k < r ==> !OccursAt(s, pat, k)
  }

  /// `pat` occurs nowhere at or after `from`.
  ghost predicate AbsentFrom<T>(s: seq<T>, pat: seq<T>, from: nat)
  {
    forall k :: from <= k ==> !OccursAt(s, pat, k)
  }

  /// `s.indexOf(pat, from)`: the first occurrence at or after the clamped
  /// start position, or -1.
  function IndexOf<T(==)>(s: seq<T>, pat: seq<T>, from: int): (r: int)
    ensures r == -1 || FirstOccurrence(s, pat, Clamp(from, |s|), r)
    ensures r == -1 ==> AbsentFrom(s, pat, Clamp(from, |s|))
    decreases |s| - Clamp(from, |s|)
  {
    var k := Clamp(from, |s|);
    if k + |pat| > |s| then -1
    else if s[k..k + |pat|] == pat then k
    else IndexOf(s, pat, k + 1)
  }

  /// The first occurrence is unique, so `IndexOf` is determined by it.
  lemma IndexOfFirst<T>(s: seq<T>, pat: seq<T>, from: nat, r: int)
    requires from <= |s|
    requires FirstOccurrence(s, pat, from, r)
    ensures IndexOf(s, pat, from) == r
  {
  }

  lemma IndexOfAbsent<T>(s: seq<T>, pat: seq<T>, from: nat)
    requires from <= |s|
    requires AbsentFrom(s, pat, from)
    ensures IndexOf(s, pat, from) == -1
  {
  }

  lemma FirstOccurrenceUnique<T>(s: seq<T>, pat: seq<T>, from: nat, p: int, q: int)
    requires FirstOccurrence(s, pat, from, p) && FirstOccurrence(s, pat, from, q)
    ensures p == q
  {
  }

  /// A one-element pattern occurs exactly where that element stands.
  lemma OccursAtSingle<T>(s: seq<T>, x: T, k: int)
    ensures OccursAt(s, [x], k) <==> 0 <= k < |s| && s[k] == x
  {
    if 0 <= k < |s| {
      assert s[k..k + 1] == [s[k]];
    }
  }

  /// `Array.prototype.splice(i, 1)`: removes the element at index `i`.
  function RemoveAt<T>(s: seq<T>, i: nat): (r: seq<T>)
    requires i < |s|
    ensures |r| == |s| - 1
    ensures forall k :: 0 <= k < i ==> r[k] == s[k]
    ensures forall k :: i <= k < |r| ==> r[k] == s[k + 1]
  {
    s[..i] + s[i + 1..]
  }

  /// `s.substring(start, end)`: both positions clamped, swapped when out of order.
  function Substring(s: string, start: int, end: int): (r: string)
    ensures var a, b := Clamp(start, |s|), Clamp(end, |s|);
            |r| == if a <= b then b - a else a - b
    ensures 0 <= start <= end <= |s| ==> r == s[start..end]
  {
    var a, b := Clamp(start, |s|), Clamp(end, |s|);
    if a <= b then s[a..b] else s[b..a]
  }

  /// The order of the two positions does not matter, and positions outside
  /// the string act as its nearest end.
  lemma SubstringSwap(s: string, start: int, end: int)
    ensures Substring(s, start, end) == Substring(s, end, start)
    ensures Substring(s, start, end) == Substring(s, Clamp(start, |s|), Clamp(end, |s|))
  {
  }

  /// The UTF-8 encoding of one Unicode scalar value.
  function EncodeChar(c: char): (r: seq<byte>)
    ensures 1 <= |r| <= 4
    ensures |r| == 1 <==> c as int < 0x80
    ensures |r| == 1 ==> r[0] as int == c as int
    ensures c as int >= 0x80 ==> forall i :: 0 <= i < |r| ==> r[i] >= 0x80
  {
    var n := c as int;
    if n < 0x80 then [n as byte]
    else if n < 0x800 then [(0xC0 + n / 0x40) as byte, (0x80 + n % 0x40) as byte]
    else if n < 0x1_0000 then
      [(0xE0 + n / 0x1000) as byte, (0x80 + n / 0x40 % 0x40) as byte, (0x80 + n % 0x40) as byte]
    else
      [(0xF0 + n / 0x4_0000) as byte, (0x80 + n / 0x1000 % 0x40) as byte,
       (0x80 + n / 0x40 % 0x40) as byte, (0x80 + n % 0x40) as byte]
  }

  /// The bytes of `new Buffer(s)` (default encoding `utf8`).
  function Utf8(s: string): seq<byte>
  {
    if s == [] then [] else EncodeChar(s[0]) + Utf8(s[1..])
  }

  /// `s.length`: JavaScript counts UTF-16 code units, two for a character
  /// outside the Basic Multilingual Plane.
  function Utf16Length(s: string): nat
  {
    if s == [] then 0 else (if s[0] as int < 0x1_0000 then 1 else 2) + Utf16Length(s[1..])
  }

  predicate IsAscii(s: string)
  {
    forall i :: 0 <= i < |s| ==> s[i] as int < 0x80
  }

  lemma {:induction false} Utf8Append(a: string, b: string)
    ensures Utf8(a + b) == Utf8(a) + Utf8(b)
  {
    if a == [] {
      assert a + b == b;
    } else {
      assert (a + b)[0] == a[0];
      assert (a + b)[1..] == a[1..] + b;
      Utf8Append(a[1..], b);
    }
  }

  /// On ASCII text the encoding is the identity on character codes, and the
  /// byte length, the character count and the JavaScript length agree.
  lemma {:induction false} Utf8Ascii(s: string)
    requires IsAscii(s)
    ensures |Utf8(s)| == |s| == Utf16Length(s)
    ensures forall i :: 0 <= i < |s| ==> Utf8(s)[i] as int == s[i] as int
  {
    if s != [] {
      assert IsAscii(s[1..]) by {
        forall i | 0 <= i < |s| - 1 ensures s[1..][i] as int < 0x80 {
          assert s[1..][i] == s[i + 1];
        }
      }
      Utf8Ascii(s[1..]);
      assert Utf8(s) == [s[0] as int as byte] + Utf8(s[1..]);
    }
  }

  /// A JavaScript string never counts more units than its UTF-8 encoding has bytes.
  lemma {:induction false} Utf16LengthAtMostUtf8(s: string)
    ensures Utf16Length(s) <= |Utf8(s)|
  {
    if s != [] {
      Utf16LengthAtMostUtf8(s[1..]);
    }
  }

  /// The encoding produces a CR or LF byte only for a CR or LF character.
  lemma {:induction false} Utf8NoLineBreak(s: string)
    requires '\r' !in s && '\n' !in s
    ensures CR !in Utf8(s) && LF !in Utf8(s)
  {
    if s != [] {
      assert s[0] in s;
      assert forall c :: c in s[1..] ==> c in s;
      Utf8NoLineBreak(s[1..]);
      var e := EncodeChar(s[0]);
      assert CR !in e && LF !in e by {
        if s[0] as int < 0x80 {
          assert e == [e[0]];
        }
      }
    }
  }
}
