/**
 Markup removal in message bodies: `re.sub('<[^<]+?>', '', content)`.
 The pattern matches a `<`, then at least one character other than `<`, as few
 as possible, then a `>`. `re.sub` scans left to right and replaces
 non-overlapping matches; where no match starts at a position, that
 character is kept and the scan moves on by one.
 */
module TagStrip {
  import opened Wrappers

  /** `s[j]` is a `>` that can close a tag opened at `s[0]`, with no `<` in
      `s[k..j]`: the pattern needs at least one character between the brackets. */
  ghost predicate ClosesFrom(s: string, k: nat, j: int) {
    && k <= j < |s|
    && 2 <= j
    && s[j] == '>'
    && forall m :: k <= m < j ==> s[m] != '<'
  }

  /** `s[..j + 1]` is a match of the pattern: `s[0]` is `<`, `s[j]` is `>`,
      at least one character lies between them and none of those is `<`. */
  ghost predicate TagEndsAt(s: string, j: int) {
    |s| > 0 && s[0] == '<' && ClosesFrom(s, 1, j)
  }

  /** Lazy search, from `k` on, for the `>` that closes a tag opened at `s[0]`. */
  function CloseFrom(s: string, k: nat): (r: Option<nat>)
    ensures r.Some? ==> k <= r.value < |s|
    decreases |s| - k
  {
    if k >= |s| then None
    else if s[k] == '<' then None
    else if s[k] == '>' && k >= 2 then Some(k)
    else CloseFrom(s, k + 1)
  }

  /** The search finds the first closing `>` from `k` on, and only fails when there is none. */
  lemma {:induction false} CloseFromFirst(s: string, k: nat)
    ensures CloseFrom(s, k).Some? ==> ClosesFrom(s, k, CloseFrom(s, k).value)
    ensures CloseFrom(s, k).Some? ==> forall j :: k <= j < CloseFrom(s, k).value ==> !ClosesFrom(s, k, j)
    ensures CloseFrom(s, k).None? ==> forall j :: !ClosesFrom(s, k, j)
    decreases |s| - k
  {
    if k < |s| && s[k] != '<' && !(s[k] == '>' && k >= 2) {
      CloseFromFirst(s, k + 1);
      assert forall j :: ClosesFrom(s, k, j) ==> ClosesFrom(s, k + 1, j);
    }
  }

  /** Where the match starting at `s[0]` ends, if one does. */
  function TagEnd(s: string): (r: Option<nat>)
    ensures r.Some? ==> 2 <= r.value < |s|
  {
    if |s| == 0 || s[0] != '<' then None else CloseFrom(s, 1)
  }

  /** `TagEnd` finds exactly the lazy match of the pattern: the shortest tag
      opened at `s[0]`, and nothing when no tag is. */
  lemma TagEndShortest(s: string)
    ensures TagEnd(s).Some? ==> TagEndsAt(s, TagEnd(s).value)
    ensures TagEnd(s).Some? ==> forall j :: 2 <= j < TagEnd(s).value ==> !TagEndsAt(s, j)
    ensures TagEnd(s).None? ==> forall j :: !TagEndsAt(s, j)
  {
    CloseFromFirst(s, 1);
  }

  /** `re.sub('<[^<]+?>', '', s)` */
  function StripTags(s: string): string
    decreases |s|
  {
    if |s| == 0 then ""
    else match TagEnd(s)
      case Some(j) => StripTags(s[j + 1..])
      case None => [s[0]] + StripTags(s[1..])
  }

  /** Stripping never lengthens the text. */
  lemma {:induction false} StripTagsShorter(s: string)
    ensures |StripTags(s)| <= |s|
    decreases |s|
  {
    if |s| > 0 {
      match TagEnd(s)
      case Some(j) =>
        TagEndShortest(s);
        StripTagsShorter(s[j + 1..]);
      case None => StripTagsShorter(s[1..]);
    }
  }

  /** Text before the first `<` is kept as it is. */
  lemma {:induction false} StripTagsPlainPrefix(p: string, t: string)
    requires '<' !in p
    ensures StripTags(p + t) == p + StripTags(t)
    decreases |p|
  {
    if |p| > 0 {
      assert (p + t)[0] == p[0];
      assert (p + t)[1..] == p[1..] + t;
      StripTagsPlainPrefix(p[1..], t);
      assert p == [p[0]] + p[1..];
    } else {
      assert p + t == t;
    }
  }

  /** A text without `<` is left unchanged. */
  lemma StripTagsNoOpen(s: string)
    requires '<' !in s
    ensures StripTags(s) == s
  {
    StripTagsPlainPrefix(s, "");
    assert s + "" == s;
  }

  /** A text without `>` is left unchanged: no tag can close. */
  lemma {:induction false} StripTagsNoClose(s: string)
    requires '>' !in s
    ensures StripTags(s) == s
    decreases |s|
  {
    if |s| > 0 {
      assert '>' !in s[1..];
      TagEndShortest(s);
      StripTagsNoClose(s[1..]);
      assert s == [s[0]] + s[1..];
    }
  }

  /** What may stand between the brackets of a well-formed tag. */
  predicate TagName(inside: string) {
    |inside| > 0 && '<' !in inside && '>' !in inside
  }

  /** A tag whose inside has neither `<` nor `>` is removed whole. */
  lemma StripTagsTag(inside: string, t: string)
    requires TagName(inside)
    ensures StripTags("<" + inside + ">" + t) == StripTags(t)
  {
    var s := "<" + inside + ">" + t;
    var j := |inside| + 1;
    assert s[j] == '>';
    assert forall k :: 1 <= k < j ==> s[k] == inside[k - 1];
    assert TagEndsAt(s, j);
    TagEndShortest(s);
    assert TagEnd(s) == Some(j);
    assert s[j + 1..] == t;
  }

  /** An element's opening tag goes and the plain text after it stays. */
  lemma StripTagsElement(inside: string, text: string, rest: string)
    requires TagName(inside) && '<' !in text
    ensures StripTags("<" + inside + ">" + (text + rest)) == text + StripTags(rest)
  {
    StripTagsTag(inside, text + rest);
    StripTagsPlainPrefix(text, rest);
  }

  /** Two closing tags in a row both go. */
  lemma StripTagsTwoTags(c: string, d: string)
    requires TagName(c) && TagName(d)
    ensures StripTags("<" + c + ">" + ("<" + d + ">")) == ""
  {
    StripTagsTag(c, "<" + d + ">");
    StripTagsTag(d, "");
    assert "<" + d + ">" + "" == "<" + d + ">";
  }

  /** Two nested elements around plain text lose both opening tags, given
      that what follows the inner text strips away entirely. */
  lemma StripTagsNested(a: string, text1: string, b: string, text2: string, closing: string)
    requires TagName(a) && TagName(b)
    requires '<' !in text1 && '<' !in text2
    requires StripTags(closing) == ""
    ensures StripTags("<" + a + ">" + (text1 + ("<" + b + ">" + (text2 + closing)))) == text1 + text2
  {
    var inner := "<" + b + ">" + (text2 + closing);
    assert StripTags(inner) == text2 by {
      StripTagsElement(b, text2, closing);
      assert text2 + "" == text2;
    }
    StripTagsElement(a, text1, inner);
  }

  /** The closing tags of the worked example vanish. */
  lemma StripTagsClosingExample()
    ensures StripTags("</b></p>") == ""
  {
    StripTagsTwoTags("/b", "/p");
    assert "<" + "/b" + ">" + ("<" + "/p" + ">") == "</b></p>";
  }

  /** The worked example, piece by piece. */
  lemma StripTagsExampleParts(a: string, text1: string, b: string, text2: string, closing: string)
    requires a == "p" && text1 == "Hi " && b == "b" && text2 == "there" && closing == "</b></p>"
    ensures StripTags("<" + a + ">" + (text1 + ("<" + b + ">" + (text2 + closing)))) == "Hi there"
  {
    StripTagsClosingExample();
    StripTagsNested(a, text1, b, text2, closing);
  }

  /** The worked example: `<p>Hi <b>there</b></p>` renders as `Hi there`. */
  lemma StripTagsExample()
    ensures StripTags("<p>Hi <b>there</b></p>") == "Hi there"
  {
    var a, text1, b, text2, closing := "p", "Hi ", "b", "there", "</b></p>";
    StripTagsExampleParts(a, text1, b, text2, closing);
    assert "<" + a + ">" + (text1 + ("<" + b + ">" + (text2 + closing))) == "<p>Hi <b>there</b></p>";
  }

  /** The search from `k` fails when a `<` at `n` comes before any `>`. */
  lemma {:induction false} CloseFromBlocked(s: string, k: nat, n: nat)
    requires k <= n < |s| && s[n] == '<'
    requires forall m :: k <= m < n ==> s[m] != '>'
    ensures CloseFrom(s, k).None?
    decreases n - k
  {
    if s[k] != '<' {
      CloseFromBlocked(s, k + 1, n);
    }
  }

  /** A `<` at `n` reopened before any `>` leaves the `<` at the start
      unmatched: everything before `n` is kept, and the scan resumes at `n`. */
  lemma {:induction false} StripTagsReopened(s: string, n: nat)
    requires 0 < n < |s| && s[0] == '<' && s[n] == '<'
    requires forall m :: 1 <= m < n ==> s[m] != '<' && s[m] != '>'
    ensures StripTags(s) == s[..n] + StripTags(s[n..])
  {
    CloseFromBlocked(s, 1, n);
    assert StripTags(s) == [s[0]] + StripTags(s[1..]);
    var p, t := s[1..n], s[n..];
    assert s[1..] == p + t;
    assert '<' !in p by {
      assert forall k :: 0 <= k < |p| ==> p[k] == s[k + 1];
    }
    StripTagsPlainPrefix(p, t);
    assert s[..n] == [s[0]] + p;
  }

  /** One pass is not a fixed point on malformed markup: `<a<b>>` loses only
      `<b>` and leaves the new tag `<a>`, which a second pass removes. */
  lemma StripTagsNotIdempotent(a: string, b: string)
    requires TagName(a) && TagName(b)
    ensures StripTags("<" + a + ("<" + b + ">" + ">")) == "<" + a + ">"
    ensures StripTags("<" + a + ">") == ""
  {
    var close := ">";
    var t := "<" + b + ">" + close;
    var s := "<" + a + t;
    var n := |a| + 1;
    assert forall m :: 1 <= m < n ==> s[m] == a[m - 1];
    StripTagsReopened(s, n);
    assert s[..n] == "<" + a && s[n..] == t;
    StripTagsTag(b, close);
    StripTagsNoOpen(close);
    StripTagsTag(a, "");
    assert "<" + a + ">" + "" == "<" + a + ">";
  }

  /** The lazy search for the end of a match starting at `s[i]`, as a loop. */
  method MatchAt(s: string, i: nat) returns (close: Option<nat>)
    requires i < |s|
    ensures close == TagEnd(s[i..])
  {
    close := None;
    if s[i] == '<' {
      ghost var t := s[i..];
      var k := i + 1;
      while k < |s| && s[k] != '<' && !(s[k] == '>' && k >= i + 2)
        invariant i + 1 <= k <= |s|
        invariant CloseFrom(t, k - i) == CloseFrom(t, 1)
        decreases |s| - k
      {
        k := k + 1;
      }
      if k < |s| && s[k] == '>' {
        close := Some(k - i);
      }
    }
  }

  /** One step of the scan at position `i`: a match there is dropped whole,
      otherwise the character is kept and the scan moves on by one. */
  lemma StripTagsStep(s: string, i: nat)
    requires i < |s|
    ensures TagEnd(s[i..]).Some? ==>
              && i + TagEnd(s[i..]).value + 1 <= |s|
              && StripTags(s[i..]) == StripTags(s[i + TagEnd(s[i..]).value + 1..])
    ensures TagEnd(s[i..]).None? ==> StripTags(s[i..]) == [s[i]] + StripTags(s[i + 1..])
  {
    var t := s[i..];
    match TagEnd(t)
    case Some(j) =>
      TagEndShortest(t);
      assert t[j + 1..] == s[i + j + 1..];
    case None =>
      assert t[1..] == s[i + 1..];
  }

  /** The scan `re.sub` performs, as a loop over the text; it computes `StripTags`. */
  method StripTagsScan(s: string) returns (r: string)
    ensures r == StripTags(s)
    ensures |r| <= |s|
  {
    r := "";
    var i := 0;
    while i < |s|
      invariant 0 <= i <= |s|
      invariant r + StripTags(s[i..]) == StripTags(s)
      decreases |s| - i
    {
      var close := MatchAt(s, i);
      StripTagsStep(s, i);
      match close {
        case Some(j) =>
          i := i + j + 1;
        case None =>
          r := r + [s[i]];
          i := i + 1;
      }
    }
    assert s[i..] == "";
    StripTagsShorter(s);
  }
}
