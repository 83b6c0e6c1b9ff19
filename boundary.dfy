/// `extractBoundary`: reading the multipart boundary token out of the
/// upstream `Content-Type` header value. The code does an ad hoc search for
/// `boundary=` rather than parsing the parameter grammar of section 5.1.1 of
/// RFC 2046, and this module follows the code: JavaScript `indexOf` with its
/// clamped start position and `substring` with its argument swap, including
/// the case where `boundary=` is missing and the search position is -1.
module Boundary {
  import opened JsText

  const Parameter: string := "boundary="

  /// `.replace(/"/gi, '')`: every double quote is deleted, nothing else is.
  function RemoveQuotes(s: string): (r: string)
    ensures '"' !in r
  {
    if s == [] then []
    else (if s[0] == '"' then [] else [s[0]]) + RemoveQuotes(s[1..])
  }

  /// Every other character keeps its number of occurrences.
  lemma {:induction false} RemoveQuotesCounts(s: string)
    ensures multiset(RemoveQuotes(s)) == multiset(s)['"' := 0]
  {
    if s != [] {
      assert s == [s[0]] + s[1..];
      RemoveQuotesCounts(s[1..]);
    }
  }

  /// `.replace(/^\-\-/gi, '')`: a single leading `--` is deleted.
  function StripLeadingDashes(s: string): (r: string)
    ensures s == r || s == "--" + r
    ensures |s| >= 2 && s[..2] == "--" ==> s == "--" + r
    ensures forall c :: c in r ==> c in s
  {
    if |s| >= 2 && s[..2] == "--" then s[2..] else s
  }

  function ExtractBoundary(contentType: string): (r: string)
    ensures '"' !in r
  {
    var start := IndexOf(contentType, Parameter, 0);
    var semicolon := IndexOf(contentType, ";", start);
    var end :=
      if semicolon != -1 then semicolon
      else
        var cr := IndexOf(contentType, "\r", start);
        if cr != -1 then cr else |contentType|;
    StripLeadingDashes(RemoveQuotes(Substring(contentType, start + |Parameter|, end)))
  }

  /// Where the parameter value that starts at `from` ends: at the first `;`
  /// after it; failing that, at the first carriage return after it; failing
  /// that, at the end of the header.
  ghost predicate ValueEnd(s: string, from: nat, e: nat)
  {
    from <= e <= |s| &&
    if exists k :: from <= k < |s| && s[k] == ';' then
      e < |s| && s[e] == ';' && forall k :: from <= k < e ==> s[k] != ';'
    else if exists k :: from <= k < |s| && s[k] == '\r' then
      e < |s| && s[e] == '\r' && forall k :: from <= k < e ==> s[k] != '\r'
    else
      e == |s|
  }

  /// `indexOf` of a one-character pattern, stated on characters.
  lemma IndexOfChar(s: string, c: char, from: nat)
    requires from <= |s|
    ensures var r := IndexOf(s, [c], from);
            (r == -1 <==> forall k :: from <= k < |s| ==> s[k] != c) &&
            (r != -1 ==> from <= r < |s| && s[r] == c && forall k :: from <= k < r ==> s[k] != c)
  {
    forall k ensures OccursAt(s, [c], k) <==> 0 <= k < |s| && s[k] == c {
      OccursAtSingle(s, c, k);
    }
  }

  /// The end position the code computes from the search position `start`
  /// is the end given by `ValueEnd`, whenever no `;` or carriage return
  /// stands between `start` and the value's first character.
  lemma EndPosition(ct: string, start: nat, from: nat, e: nat)
    requires start <= from <= |ct|
    requires forall k :: start <= k < from ==> ct[k] != ';' && ct[k] != '\r'
    requires ValueEnd(ct, from, e)
    ensures var semicolon := IndexOf(ct, ";", start);
            var cr := IndexOf(ct, "\r", start);
            e == if semicolon != -1 then semicolon else if cr != -1 then cr else |ct|
  {
    IndexOfChar(ct, ';', start);
    IndexOfChar(ct, '\r', start);
  }

  /// With `boundary=` first found at `i`, the token is the text between it
  /// and the value's end, with quotes removed and then one leading `--`.
  lemma ExtractBoundaryWhenPresent(ct: string, i: nat, e: nat)
    requires FirstOccurrence(ct, Parameter, 0, i)
    requires ValueEnd(ct, i + |Parameter|, e)
    ensures ExtractBoundary(ct) == StripLeadingDashes(RemoveQuotes(ct[i + |Parameter|..e]))
  {
    IndexOfFirst(ct, Parameter, 0, i);
    forall k | i <= k < i + |Parameter| ensures ct[k] != ';' && ct[k] != '\r' {
      assert ct[k] == ct[i..i + |Parameter|][k - i];
    }
    EndPosition(ct, i, i + |Parameter|, e);
  }

  /// Without `boundary=` the search position is -1: the end is searched from
  /// the start of the header and the token is the text between that end and
  /// offset 8, in whichever order `substring` puts them.
  lemma ExtractBoundaryWhenAbsent(ct: string, e: nat)
    requires AbsentFrom(ct, Parameter, 0)
    requires ValueEnd(ct, 0, e)
    ensures var a := Clamp(|Parameter| - 1, |ct|);
            ExtractBoundary(ct) == StripLeadingDashes(RemoveQuotes(if a <= e then ct[a..e] else ct[e..a]))
  {
    IndexOfAbsent(ct, Parameter, 0);
    EndPosition(ct, 0, 0, e);
  }

  lemma {:induction false} RemoveQuotesAppend(a: string, b: string)
    ensures RemoveQuotes(a + b) == RemoveQuotes(a) + RemoveQuotes(b)
  {
    if a == [] {
      assert a + b == b;
    } else {
      assert (a + b)[0] == a[0];
      assert (a + b)[1..] == a[1..] + b;
      RemoveQuotesAppend(a[1..], b);
    }
  }

  lemma {:induction false} RemoveQuotesUnquoted(s: string)
    requires '"' !in s
    ensures RemoveQuotes(s) == s
  {
    if s != [] {
      assert s[0] in s;
      assert forall c :: c in s[1..] ==> c in s;
      RemoveQuotesUnquoted(s[1..]);
    }
  }

  /// A pattern can only occur where its first character stands.
  lemma FirstOccurrenceAfterPrefix(prefix: string, rest: string)
    requires |rest| >= |Parameter| && rest[..|Parameter|] == Parameter
    requires 'b' !in prefix
    ensures FirstOccurrence(prefix + rest, Parameter, 0, |prefix|)
  {
    var s := prefix + rest;
    assert s[|prefix|..|prefix| + |Parameter|] == rest[..|Parameter|];
    forall k | 0 <= k < |prefix| ensures !OccursAt(s, Parameter, k) {
      assert s[k] == prefix[k];
    }
  }

  /// `ExtractBoundaryWhenPresent` for a value without quote characters.
  lemma ExtractBoundaryUnquoted(ct: string, i: nat, e: nat)
    requires FirstOccurrence(ct, Parameter, 0, i)
    requires ValueEnd(ct, i + |Parameter|, e)
    requires '"' !in ct[i + |Parameter|..e]
    ensures ExtractBoundary(ct) == StripLeadingDashes(ct[i + |Parameter|..e])
  {
    ExtractBoundaryWhenPresent(ct, i, e);
    RemoveQuotesUnquoted(ct[i + |Parameter|..e]);
  }

  /// A value with no `;` after it ends at its first carriage return.
  lemma ValueEndAtReturn(s: string, from: nat, e: nat)
    requires from <= e < |s| && s[e] == '\r'
    requires forall k :: from <= k < |s| ==> s[k] != ';'
    requires forall k :: from <= k < e ==> s[k] != '\r'
    ensures ValueEnd(s, from, e)
  {
  }

  /// A value with neither `;` nor a carriage return after it runs to the
  /// end of the header.
  lemma ValueEndAtEnd(s: string, from: nat)
    requires from <= |s|
    requires forall k :: from <= k < |s| ==> s[k] != ';' && s[k] != '\r'
    ensures ValueEnd(s, from, |s|)
  {
  }

  /// A header that ends with `boundary=` and a plain token gives back that
  /// token, when `boundary=` does not occur earlier. Requiring that the
  /// prefix holds no `b` is a simple way to ensure this: `boundary=` can
  /// only start at a `b`.
  lemma ExtractBoundaryOfParameter(prefix: string, b: string)
    requires 'b' !in prefix
    requires ';' !in b && '\r' !in b && '"' !in b
    requires !(|b| >= 2 && b[..2] == "--")
    ensures ExtractBoundary(prefix + Parameter + b) == b
  {
    var ct := prefix + Parameter + b;
    assert ct == prefix + (Parameter + b);
    FirstOccurrenceAfterPrefix(prefix, Parameter + b);
    var from := |prefix| + |Parameter|;
    assert ct[from..|ct|] == b;
    forall k | from <= k < |ct| ensures ct[k] != ';' && ct[k] != '\r' {
      assert ct[k] == b[k - from];
    }
    ValueEndAtEnd(ct, from);
    ExtractBoundaryUnquoted(ct, |prefix|, |ct|);
    assert StripLeadingDashes(b) == b;
  }

  /// Two header values: a dashed token ended by CR LF, and a quoted token.
  lemma ExtractBoundaryDashedExample(ct: string)
    requires ct == "multipart/x-mixed-replace;boundary=--myboundary\r\n"
    ensures ExtractBoundary(ct) == "myboundary"
  {
    DashedExampleLayout(ct);
    DashedToken(ct[35..47]);
    ExtractBoundaryUnquoted(ct, 26, 47);
  }

  lemma DashedExampleLayout(ct: string)
    requires ct == "multipart/x-mixed-replace;boundary=--myboundary\r\n"
    ensures FirstOccurrence(ct, Parameter, 0, 26) && ValueEnd(ct, 35, 47)
    ensures ct[35..47] == "--myboundary"
  {
    var prefix, value := "multipart/x-mixed-replace;", "--myboundary\r\n";
    assert ct == prefix + (Parameter + value);
    FirstOccurrenceAfterPrefix(prefix, Parameter + value);
    assert ct[35..] == value;
    forall k | 35 <= k < |ct| ensures ct[k] != ';' && (k < 47 ==> ct[k] != '\r') {
      assert ct[k] == value[k - 35];
    }
    ValueEndAtReturn(ct, 35, 47);
  }

  lemma DashedToken(t: string)
    requires t == "--myboundary"
    ensures '"' !in t && StripLeadingDashes(t) == "myboundary"
  {
  }

  lemma ExtractBoundaryQuotedExample(ct: string)
    requires ct == "multipart/x-mixed-replace; boundary=\"frame\""
    ensures ExtractBoundary(ct) == "frame"
  {
    QuotedExampleLayout(ct);
    ExtractBoundaryWhenPresent(ct, 27, |ct|);
    QuotedToken(ct[36..|ct|]);
  }

  lemma QuotedExampleLayout(ct: string)
    requires ct == "multipart/x-mixed-replace; boundary=\"frame\""
    ensures FirstOccurrence(ct, Parameter, 0, 27) && ValueEnd(ct, 36, |ct|)
    ensures ct[36..|ct|] == "\"frame\""
  {
    var prefix, value := "multipart/x-mixed-replace; ", "\"frame\"";
    assert ct == prefix + (Parameter + value);
    FirstOccurrenceAfterPrefix(prefix, Parameter + value);
    assert ct[36..] == value;
    forall k | 36 <= k < |ct| ensures ct[k] != ';' && ct[k] != '\r' {
      assert ct[k] == value[k - 36];
    }
    ValueEndAtEnd(ct, 36);
  }

  lemma QuotedToken(v: string)
    requires v == "\"frame\""
    ensures StripLeadingDashes(RemoveQuotes(v)) == "frame"
  {
    var inner := v[1..|v| - 1];
    assert v == ['"'] + inner + ['"'];
    assert inner == "frame";
    RemoveQuotesAround(inner);
  }

  lemma RemoveQuotesAround(x: string)
    requires '"' !in x
    ensures RemoveQuotes(['"'] + x + ['"']) == x
  {
    RemoveQuotesAppend(['"'] + x, ['"']);
    RemoveQuotesAppend(['"'], x);
    RemoveQuotesUnquoted(x);
  }
}
