/** Python's `str.strip()` with no argument: removes leading and trailing
    characters for which `str.isspace()` holds. */
module Whitespace {

  import opened Seqs

  /** The characters Python's `str.isspace()` accepts: the ASCII controls
      TAB..CR and FS..US, SPACE, NEL, NO-BREAK SPACE and the Unicode space
      separators and line/paragraph separators. */
  predicate IsSpace(c: char) {
    || ('\t' <= c <= '\r')
    || ('\U{1C}' <= c <= '\U{1F}')
    || c == ' '
    || c == '\U{85}'
    || c == '\U{A0}'
    || c == '\U{1680}'
    || ('\U{2000}' <= c <= '\U{200A}')
    || c == '\U{2028}'
    || c == '\U{2029}'
    || c == '\U{202F}'
    || c == '\U{205F}'
    || c == '\U{3000}'
  }

  predicate AllSpace(s: string) {
    forall k :: 0 <= k < |s| ==> IsSpace(s[k])
  }

  /** Neither end of `s` is whitespace (vacuously true of the empty string). */
  predicate Trimmed(s: string) {
    |s| == 0 || (!IsSpace(s[0]) && !IsSpace(s[|s| - 1]))
  }

  /** Drops the leading whitespace: the result is the suffix of `s` after it. */
  function TrimStart(s: string): (r: string)
    ensures |r| <= |s| && r == s[|s| - |r|..]
    ensures AllSpace(s[..|s| - |r|])
    ensures |r| == 0 || !IsSpace(r[0])
  {
    if |s| > 0 && IsSpace(s[0]) then
      var r := TrimStart(s[1..]);
      var k := |s| - |r|;
      assert s[1..][k - 1..] == s[k..];
      assert s[1..][..k - 1] == s[1..k];
      LeadingSpaces(s, k);
      r
    else
      s
  }

  /** A whitespace character followed by whitespace is whitespace. */
  lemma LeadingSpaces(s: string, k: nat)
    requires 0 < k <= |s| && IsSpace(s[0]) && AllSpace(s[1..k])
    ensures AllSpace(s[..k])
  {
    forall i | 0 <= i < k
      ensures IsSpace(s[..k][i])
    {
      if i > 0 {
        assert s[..k][i] == s[1..k][i - 1];
      }
    }
  }

  /** Drops the trailing whitespace: the result is the prefix of `s` before it. */
  function TrimEnd(s: string): (r: string)
    ensures |r| <= |s| && r == s[..|r|]
    ensures AllSpace(s[|r|..])
    ensures |r| == 0 || !IsSpace(r[|r| - 1])
  {
    if |s| > 0 && IsSpace(s[|s| - 1]) then
      var r := TrimEnd(s[..|s| - 1]);
      assert s[|r|..] == s[..|s| - 1][|r|..] + [s[|s| - 1]];
      r
    else
      s
  }

  /** `s.strip()`. The result is empty exactly when `s` is all whitespace. */
  function Strip(s: string): (r: string)
    ensures Trimmed(r)
    ensures |r| <= |s|
  {
    var t := TrimStart(s);
    var r := TrimEnd(t);
    if |r| == 0 then
      r
    else
      assert !IsSpace(r[0]) by { assert r[0] == t[0]; }
      r
  }

  /** The stripped text is empty exactly when the input is all whitespace. */
  lemma StripBlank(s: string)
    ensures |Strip(s)| == 0 <==> AllSpace(s)
  {
    if AllSpace(s) {
      AllSpaceTrimsAway(s);
    }
    if |Strip(s)| == 0 {
      BlankIsAllSpace(s);
    }
  }

  /** An all-whitespace text strips to nothing. */
  lemma AllSpaceTrimsAway(s: string)
    requires AllSpace(s)
    ensures |Strip(s)| == 0
  {
    assert s + [] == s;
    TrimStartPadding(s, []);
  }

  /** A text that strips to nothing is all whitespace. */
  lemma BlankIsAllSpace(s: string)
    requires |Strip(s)| == 0
    ensures AllSpace(s)
  {
    var t := TrimStart(s);
    assert t[|TrimEnd(t)|..] == t;
    assert |t| == 0;
    assert s[..|s|] == s;
  }

  /** Strip removes exactly the padding: whitespace around a trimmed text
      is all that goes. */
  lemma {:induction false} StripRemovesPadding(pre: string, text: string, post: string)
    requires AllSpace(pre) && AllSpace(post) && Trimmed(text)
    ensures Strip(pre + text + post) == text
  {
    var s := pre + text + post;
    if |text| == 0 {
      assert pre + text == pre;
      AllSpaceConcat(pre, post);
      StripBlank(s);
    } else {
      TrimStartPadding(pre, text + post);
      AppendAssoc(pre, text, post);
      TrimEndPadding(text, post);
    }
  }

  lemma AllSpaceConcat(a: string, b: string)
    requires AllSpace(a) && AllSpace(b)
    ensures AllSpace(a + b)
  {
    forall k | 0 <= k < |a + b|
      ensures IsSpace((a + b)[k])
    {
      if k < |a| {
        assert (a + b)[k] == a[k];
      } else {
        assert (a + b)[k] == b[k - |a|];
      }
    }
  }

  lemma {:induction false} TrimStartPadding(pre: string, rest: string)
    requires AllSpace(pre)
    requires |rest| == 0 || !IsSpace(rest[0])
    ensures TrimStart(pre + rest) == rest
  {
    if |pre| > 0 {
      assert (pre + rest)[1..] == pre[1..] + rest;
      TrimStartPadding(pre[1..], rest);
    }
  }

  lemma {:induction false} TrimEndPadding(rest: string, post: string)
    requires AllSpace(post)
    requires |rest| == 0 || !IsSpace(rest[|rest| - 1])
    ensures TrimEnd(rest + post) == rest
  {
    if |post| > 0 {
      assert (rest + post)[..|rest + post| - 1] == rest + post[..|post| - 1];
      TrimEndPadding(rest, post[..|post| - 1]);
    }
  }

  /** Stripping twice is stripping once. */
  lemma StripIdempotent(s: string)
    ensures Strip(Strip(s)) == Strip(s)
  {
    var r := Strip(s);
    assert r == [] + r + [];
    StripRemovesPadding([], r, []);
  }
}
