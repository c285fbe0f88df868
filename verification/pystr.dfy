/**
 The handful of Python `str` operations the bot relies on: `strip()`, `lower()`,
 `split(sep, 1)` unpacked into two names, and prefix slicing `s[:n]`.
 */
module PyStr {
  import opened Wrappers

  /** Python truthiness of an optional string: `None` and `""` are false. */
  predicate Truthy(s: Option<string>) {
    s.Some? && s.value != ""
  }

  function Min(a: int, b: int): int {
    if a <= b then a else b
  }

  /** Python's `str.isspace()` for one character: the ASCII whitespace and
      separators plus every Unicode character of category Zs or bidirectional
      class WS, B or S. */
  predicate IsSpace(c: char) {
    || c == ' '
    || ('\t' <= c <= '\r')
    || ('\U{1C}' <= c <= '\U{1F}')
    || c == '\U{85}'
    || c == '\U{A0}'
    || c == '\U{1680}'
    || ('\U{2000}' <= c <= '\U{200A}')
    || c == '\U{2028}'
    || c == '\U{2029}'
    || c == '\U{202F}'
    || c == '\U{205F}'
    || c == '\U{3000}'
  }

  /** Number of whitespace characters at the front of `s`. */
  function LeadingSpaces(s: string): (n: nat)
    ensures n <= |s|
    ensures forall k :: 0 <= k < n ==> IsSpace(s[k])
    ensures n < |s| ==> !IsSpace(s[n])
  {
    if |s| == 0 || !IsSpace(s[0]) then 0 else 1 + LeadingSpaces(s[1..])
  }

  /** Number of whitespace characters at the end of `s`. */
  function TrailingSpaces(s: string): (n: nat)
    ensures n <= |s|
    ensures forall k :: |s| - n <= k < |s| ==> IsSpace(s[k])
    ensures n < |s| ==> !IsSpace(s[|s| - n - 1])
  {
    if |s| == 0 || !IsSpace(s[|s| - 1]) then 0 else 1 + TrailingSpaces(s[..|s| - 1])
  }

  /** `r` is `s` with `i` characters cut from the front and the rest cut from
      the end, and everything cut is whitespace. */
  ghost predicate CutAt(s: string, i: int, r: string) {
    && 0 <= i <= |s| - |r|
    && r == s[i..i + |r|]
    && (forall k :: 0 <= k < i ==> IsSpace(s[k]))
    && (forall k :: i + |r| <= k < |s| ==> IsSpace(s[k]))
  }

  /** `r` is the infix `s[i..i + |r|]` lower-cased character by character,
      and everything outside that infix is whitespace. */
  ghost predicate LowerCutAt(s: string, i: int, r: string) {
    && 0 <= i <= |s| - |r|
    && (forall k :: 0 <= k < |r| ==> r[k] == LowerChar(s[i + k]))
    && (forall k :: 0 <= k < i ==> IsSpace(s[k]))
    && (forall k :: i + |r| <= k < |s| ==> IsSpace(s[k]))
  }

  /** `s.strip()`: the infix of `s` left after cutting whitespace from both ends. */
  function Strip(s: string): (r: string)
    ensures |r| <= |s|
    ensures exists i :: CutAt(s, i, r)
    ensures |r| > 0 ==> !IsSpace(r[0]) && !IsSpace(r[|r| - 1])
  {
    var i := LeadingSpaces(s);
    var t := s[i..];
    var j := TrailingSpaces(t);
    var r := t[..|t| - j];
    assert CutAt(s, i, r);
    r
  }

  /** Lower-casing a stripped text lower-cases the infix that stripping keeps. */
  lemma LowerStrip(s: string)
    ensures exists i :: LowerCutAt(s, i, Lower(Strip(s)))
  {
    var t := Strip(s);
    var i :| CutAt(s, i, t);
    assert LowerCutAt(s, i, Lower(t));
  }

  /** A text that neither starts nor ends with whitespace is what stripping
      one space from each side of it gives back. */
  lemma StripPadded(x: string)
    requires |x| > 0 && !IsSpace(x[0]) && !IsSpace(x[|x| - 1])
    ensures Strip(" " + x + " ") == x
  {
    var s := " " + x + " ";
    var t := s[1..];
    assert t == x + " ";
    assert LeadingSpaces(t) == 0 by {
      assert t[0] == x[0];
    }
    assert LeadingSpaces(s) == 1;
    assert t[..|t| - 1] == x;
    assert TrailingSpaces(x) == 0;
    assert TrailingSpaces(t) == 1;
  }

  /** Stripping is idempotent. */
  lemma StripIdempotent(s: string)
    ensures Strip(Strip(s)) == Strip(s)
  {
    var r := Strip(s);
    if |r| > 0 {
      assert LeadingSpaces(r) == 0;
      assert TrailingSpaces(r) == 0;
      assert r[0..][..|r| - 0] == r;
    }
  }

  predicate IsAsciiUpper(c: char) {
    'A' <= c <= 'Z'
  }

  function LowerChar(c: char): char {
    if IsAsciiUpper(c) then (c as int + 32) as char else c
  }

  /** `s.lower()` restricted to the ASCII letters. */
  function Lower(s: string): (r: string)
    ensures |r| == |s|
    ensures forall k :: 0 <= k < |r| ==> !IsAsciiUpper(r[k])
    ensures forall k :: 0 <= k < |s| && IsAsciiUpper(s[k]) ==> r[k] as int == s[k] as int + 32
    ensures forall k :: 0 <= k < |s| && !IsAsciiUpper(s[k]) ==> r[k] == s[k]
  {
    seq(|s|, k requires 0 <= k < |s| => LowerChar(s[k]))
  }

  /** Lower-casing is idempotent. */
  lemma LowerIdempotent(s: string)
    ensures Lower(Lower(s)) == Lower(s)
  {
  }

  /** Index of the first occurrence of `c` in `s`, as `str.find` would report it. */
  function IndexOf(s: string, c: char): (r: Option<nat>)
    ensures r.None? <==> c !in s
    ensures r.Some? ==> r.value < |s| && s[r.value] == c && c !in s[..r.value]
  {
    if |s| == 0 then None
    else if s[0] == c then Some(0)
    else match IndexOf(s[1..], c)
      case None => None
      case Some(i) =>
        assert s[1..][..i] == s[1..i + 1];
        Some(i + 1)
  }

  /** `head, tail = s.split(sep, 1)`: None stands for the ValueError Python
      raises when `sep` does not occur and the split yields a single part. */
  function SplitOnce(s: string, sep: char): (r: Option<(string, string)>)
    ensures r.None? <==> sep !in s
    ensures r.Some? ==> s == r.value.0 + [sep] + r.value.1 && sep !in r.value.0
  {
    match IndexOf(s, sep)
    case None => None
    case Some(i) =>
      assert s == s[..i] + [sep] + s[i + 1..];
      Some((s[..i], s[i + 1..]))
  }

  /** The split is unique: joining two parts whose head is free of `sep` and
      splitting again gives back the same two parts. */
  lemma SplitOnceJoin(head: string, sep: char, tail: string)
    requires sep !in head
    ensures SplitOnce(head + [sep] + tail, sep) == Some((head, tail))
  {
    var s := head + [sep] + tail;
    assert s[|head|] == sep;
    var r := SplitOnce(s, sep);
    var h := r.value.0;
    assert h == s[..|head|] == head;
    assert r.value.1 == s[|head| + 1..] == tail;
  }

  /** Python slicing `s[:n]` for a non-negative `n`. */
  function Prefix<T>(s: seq<T>, n: nat): (r: seq<T>)
    ensures |r| == Min(|s|, n)
    ensures r == s[..|r|]
  {
    if |s| <= n then s else s[..n]
  }
}
