/** Python string primitives the router and the two page helpers rely on:
    the whitespace class shared by `str.strip()` and the regex class `\s`,
    stripping, ASCII lower-casing, prefixes and substrings. */
module PyStr {

  /** Python's whitespace (Py_UNICODE_ISSPACE): what `str.strip()` removes
      and what `\s` matches in a str pattern. */
  predicate IsSpace(c: char) {
    || ('\t' <= c <= '\r')
    || ('\U{1C}' <= c <= ' ')
    || c == '\U{85}' || c == '\U{A0}' || c == '\U{1680}'
    || ('\U{2000}' <= c <= '\U{200A}')
    || c == '\U{2028}' || c == '\U{2029}' || c == '\U{202F}'
    || c == '\U{205F}' || c == '\U{3000}'
  }

  /** The same characters, listed one by one: the code points for which
      Python's `str.isspace()` holds. */
  const PythonWhitespace: set<char> := {
    '\t', '\n', '\U{B}', '\U{C}', '\r', '\U{1C}', '\U{1D}', '\U{1E}', '\U{1F}', ' ',
    '\U{85}', '\U{A0}', '\U{1680}',
    '\U{2000}', '\U{2001}', '\U{2002}', '\U{2003}', '\U{2004}', '\U{2005}',
    '\U{2006}', '\U{2007}', '\U{2008}', '\U{2009}', '\U{200A}',
    '\U{2028}', '\U{2029}', '\U{202F}', '\U{205F}', '\U{3000}'
  }

  lemma IsSpaceListed(c: char)
    ensures IsSpace(c) <==> c in PythonWhitespace
  {
  }

  predicate AllSpace(s: string) {
    forall k :: 0 <= k < |s| ==> IsSpace(s[k])
  }

  /** No whitespace at either end: what `str.strip()` leaves. */
  predicate Trimmed(s: string) {
    s == [] || (!IsSpace(s[0]) && !IsSpace(s[|s| - 1]))
  }

  /** Length of the whitespace run at the start of `s`. */
  function LeadingSpaces(s: string): (n: nat)
    ensures n <= |s|
    ensures n == |s| || !IsSpace(s[n])
  {
    if s == [] || !IsSpace(s[0]) then 0 else 1 + LeadingSpaces(s[1..])
  }

  lemma {:induction false} LeadingRun(s: string)
    ensures forall k :: 0 <= k < LeadingSpaces(s) ==> IsSpace(s[k])
  {
    if s != [] && IsSpace(s[0]) {
      LeadingRun(s[1..]);
    }
  }

  /** Length of the whitespace run at the end of `s`. */
  function TrailingSpaces(s: string): (n: nat)
    ensures n <= |s|
    ensures n == |s| || !IsSpace(s[|s| - n - 1])
  {
    if s == [] || !IsSpace(s[|s| - 1]) then 0 else 1 + TrailingSpaces(s[..|s| - 1])
  }

  lemma {:induction false} TrailingRun(s: string)
    ensures forall k :: |s| - TrailingSpaces(s) <= k < |s| ==> IsSpace(s[k])
  {
    if s != [] && IsSpace(s[|s| - 1]) {
      TrailingRun(s[..|s| - 1]);
    }
  }

  /** `str.strip()` with no argument: `s` is whitespace, then `r`, then whitespace. */
  function Strip(s: string): (r: string)
    ensures Trimmed(r)
    ensures exists i :: 0 <= i <= |s| - |r| && s[i..i + |r|] == r
                        && AllSpace(s[..i]) && AllSpace(s[i + |r|..])
  {
    var a := LeadingSpaces(s);
    var b := TrailingSpaces(s[a..]);
    LeadingRun(s);
    TrailingRunAfter(s, a);
    StripShape(s, a, b);
    s[a..|s| - b]
  }

  /** The trailing run of `s[a..]`, in indices of `s`. */
  lemma TrailingRunAfter(s: string, a: nat)
    requires a <= |s|
    ensures var b := TrailingSpaces(s[a..]);
            && b <= |s| - a
            && (b == |s| - a || !IsSpace(s[|s| - b - 1]))
            && forall k :: |s| - b <= k < |s| ==> IsSpace(s[k])
  {
    var t := s[a..];
    var b := TrailingSpaces(t);
    TrailingRun(t);
    if b < |t| {
      assert t[|t| - b - 1] == s[|s| - b - 1];
    }
    forall k | |s| - b <= k < |s|
      ensures IsSpace(s[k])
    {
      assert s[k] == t[k - a];
    }
  }

  /** Whitespace runs of lengths `a` and `b` at the two ends of `s`, each
      ending at a non-whitespace character or meeting the other, leave a
      trimmed middle. */
  lemma StripShape(s: string, a: nat, b: nat)
    requires a + b <= |s|
    requires forall k :: 0 <= k < a ==> IsSpace(s[k])
    requires forall k :: |s| - b <= k < |s| ==> IsSpace(s[k])
    requires a == |s| || !IsSpace(s[a])
    requires a + b == |s| || !IsSpace(s[|s| - b - 1])
    ensures AllSpace(s[..a]) && AllSpace(s[|s| - b..])
    ensures Trimmed(s[a..|s| - b])
  {
    var n := |s|;
    if a + b < n {
      var r := s[a..n - b];
      assert r[0] == s[a];
      assert r[|r| - 1] == s[n - b - 1];
    }
    assert forall k :: 0 <= k < a ==> s[..a][k] == s[k];
    var t := s[n - b..];
    assert forall k :: 0 <= k < b ==> t[k] == s[n - b + k];
  }

  lemma StripTrimmed(s: string)
    requires Trimmed(s)
    ensures Strip(s) == s
  {
  }

  lemma StripIdempotent(s: string)
    ensures Strip(Strip(s)) == Strip(s)
  {
    StripTrimmed(Strip(s));
  }

  lemma StripEmptyIffAllSpace(s: string)
    ensures Strip(s) == [] <==> AllSpace(s)
  {
    var a := LeadingSpaces(s);
    if a == |s| {
      assert s[..a] == s;
    } else {
      var t := s[a..];
      assert t[0] == s[a];
      assert !IsSpace(t[0]);
    }
  }

  /** Stripping whitespace padding off a trimmed, non-empty text gives the text back. */
  lemma StripPadded(a: string, t: string, b: string)
    requires AllSpace(a) && AllSpace(b) && Trimmed(t) && t != []
    ensures Strip(a + t + b) == t
  {
    var s := a + (t + b);
    assert a + t + b == s;
    LeadingSpacesPadded(a, t + b);
    assert s[|a|..] == t + b;
    TrailingSpacesPadded(t, b);
    assert (t + b)[..|t + b| - |b|] == t;
  }

  lemma {:induction false} LeadingSpacesPadded(a: string, t: string)
    requires AllSpace(a) && t != [] && !IsSpace(t[0])
    ensures LeadingSpaces(a + t) == |a|
  {
    if a == [] {
      assert a + t == t;
    } else {
      assert (a + t)[0] == a[0];
      assert (a + t)[1..] == a[1..] + t;
      LeadingSpacesPadded(a[1..], t);
    }
  }

  lemma {:induction false} TrailingSpacesPadded(t: string, b: string)
    requires AllSpace(b) && t != [] && !IsSpace(t[|t| - 1])
    ensures TrailingSpaces(t + b) == |b|
  {
    if b == [] {
      assert t + b == t;
    } else {
      var s := t + b;
      assert s[|s| - 1] == b[|b| - 1];
      assert s[..|s| - 1] == t + b[..|b| - 1];
      TrailingSpacesPadded(t, b[..|b| - 1]);
    }
  }

  function LowerChar(c: char): char {
    if 'A' <= c <= 'Z' then (c as int + 32) as char else c
  }

  /** `str.lower()` restricted to ASCII letters. */
  function AsciiLower(s: string): (r: string)
    ensures |r| == |s|
    ensures forall k :: 0 <= k < |s| ==> r[k] == LowerChar(s[k])
  {
    seq(|s|, k requires 0 <= k < |s| => LowerChar(s[k]))
  }

  /** `s.startswith(p)`, compared character by character. */
  predicate StartsWith(s: string, p: string) {
    p == [] || (s != [] && s[0] == p[0] && StartsWith(s[1..], p[1..]))
  }

  lemma {:induction false} StartsWithSlice(s: string, p: string)
    ensures StartsWith(s, p) <==> |p| <= |s| && s[..|p|] == p
  {
    if p != [] && s != [] {
      StartsWithSlice(s[1..], p[1..]);
      if |p| <= |s| {
        assert s[..|p|] == [s[0]] + s[1..][..|p| - 1];
        assert p == [p[0]] + p[1..];
      }
    }
  }

  /** In `a + b + c`, the first `|a|` characters are `a` and what follows
      `a + b` is `c`. */
  lemma ConcatSlices(a: string, b: string, c: string)
    ensures (a + b + c)[..|a|] == a && (a + b + c)[|a| + |b|..] == c
  {
  }

  lemma StartsWithConcat(p: string, t: string)
    ensures StartsWith(p + t, p)
  {
    StartsWithSlice(p + t, p);
    assert (p + t)[..|p|] == p;
  }

  predicate OccursAt(s: string, w: string, i: int) {
    0 <= i && i + |w| <= |s| && s[i..i + |w|] == w
  }

  /** `w in s` for strings. */
  predicate Contains(s: string, w: string) {
    exists i :: 0 <= i <= |s| && OccursAt(s, w, i)
  }

  /** The whitespace characters of `s`, in order. */
  function Spaces(s: string): (r: string)
    ensures AllSpace(r)
    ensures |r| <= |s|
  {
    if s == [] then []
    else if IsSpace(s[0]) then [s[0]] + Spaces(s[1..])
    else Spaces(s[1..])
  }

  lemma {:induction false} SpacesAppend(a: string, b: string)
    ensures Spaces(a + b) == Spaces(a) + Spaces(b)
  {
    if a == [] {
      assert a + b == b;
    } else {
      assert (a + b)[1..] == a[1..] + b;
      SpacesAppend(a[1..], b);
    }
  }

  lemma {:induction false} SpacesOfNonSpace(s: string)
    requires forall k :: 0 <= k < |s| ==> !IsSpace(s[k])
    ensures Spaces(s) == []
  {
    if s != [] {
      SpacesOfNonSpace(s[1..]);
    }
  }
}
