/** String handling used by the cleanup tool: Python's `str.strip`, `str.lower`
    and the tool's `normalize_email` (tools/cleanup_kdbx.py:81-87). */
module Text {
  import opened Wrappers

  /** Python's `str.isspace` for a single character: the ASCII whitespace
      characters, the information separators U+001C..U+001F and the Unicode
      space separators and line/paragraph separators. */
  predicate IsSpace(c: char) {
    || c == ' '
    || '\t' <= c <= '\r'
    || '\U{1c}' <= c <= '\U{1f}'
    || c == '\U{85}' || c == '\U{a0}' || c == '\U{1680}'
    || '\U{2000}' <= c <= '\U{200a}'
    || c == '\U{2028}' || c == '\U{2029}' || c == '\U{202f}' || c == '\U{205f}' || c == '\U{3000}'
  }

  /** The first position from `i` on whose character `strip` does not select,
      or `|s|` when there is none. */
  function SkipForward(s: string, strip: char -> bool, i: nat): (n: nat)
    requires i <= |s|
    ensures i <= n <= |s|
    ensures forall k :: i <= k < n ==> strip(s[k])
    ensures n < |s| ==> !strip(s[n])
    decreases |s| - i
  {
    if i < |s| && strip(s[i]) then SkipForward(s, strip, i + 1) else i
  }

  /** The end of the last character before `j`, and not before `lo`, that
      `strip` does not select, or `lo` when there is none. */
  function SkipBackward(s: string, strip: char -> bool, lo: nat, j: nat): (n: nat)
    requires lo <= j <= |s|
    ensures lo <= n <= j
    ensures forall k :: n <= k < j ==> strip(s[k])
    ensures lo < n ==> !strip(s[n - 1])
  {
    if lo < j && strip(s[j - 1]) then SkipBackward(s, strip, lo, j - 1) else j
  }

  /** Python's `s.strip(chars)`: drop the longest prefix and the longest suffix
      made of characters that `strip` selects. What is left neither starts nor
      ends with a selected character, and it is empty exactly when every
      character is selected. */
  function StripChars(s: string, strip: char -> bool): (r: string)
    ensures |r| <= |s|
    ensures r != [] ==> !strip(r[0]) && !strip(r[|r| - 1])
    ensures r == [] <==> forall k :: 0 <= k < |s| ==> strip(s[k])
  {
    var lo := SkipForward(s, strip, 0);
    s[lo..SkipBackward(s, strip, lo, |s|)]
  }

  /** `SkipForward` is the one position that fits its description. */
  lemma SkipForwardIs(s: string, strip: char -> bool, i: nat, n: nat)
    requires i <= n <= |s|
    requires forall k :: i <= k < n ==> strip(s[k])
    requires n < |s| ==> !strip(s[n])
    ensures SkipForward(s, strip, i) == n
  {
  }

  /** `SkipBackward` is the one position that fits its description. */
  lemma SkipBackwardIs(s: string, strip: char -> bool, lo: nat, j: nat, n: nat)
    requires lo <= n <= j <= |s|
    requires forall k :: n <= k < j ==> strip(s[k])
    requires lo < n ==> !strip(s[n - 1])
    ensures SkipBackward(s, strip, lo, j) == n
  {
  }

  /** Python's `s.strip()`. */
  function Strip(s: string): string {
    StripChars(s, IsSpace)
  }

  /** Python's `str.lower` on one character, restricted to ASCII letters. */
  function LowerChar(c: char): char {
    if 'A' <= c <= 'Z' then (c as int + 32) as char else c
  }

  /** Python's `s.lower()`, restricted to ASCII letters. */
  function Lower(s: string): string {
    seq(|s|, i requires 0 <= i < |s| => LowerChar(s[i]))
  }

  /** `normalize_email`: absent and empty input give `None`; otherwise the
      stripped value, `None` when nothing is left, and lower-cased. */
  function NormalizeEmail(value: Option<string>): (r: Option<string>)
    ensures r.None? <==> value.None? || forall k :: 0 <= k < |value.value| ==> IsSpace(value.value[k])
    ensures r.Some? ==> r.value != [] && |r.value| <= |value.value|
    ensures r.Some? ==> !IsSpace(r.value[0]) && !IsSpace(r.value[|r.value| - 1])
    ensures r.Some? ==> forall k :: 0 <= k < |r.value| ==> !('A' <= r.value[k] <= 'Z')
  {
    if value.None? || value.value == "" then None
    else
      var stripped := Strip(value.value);
      if stripped == "" then None
      else
        LowerKeepsSpace(stripped[0]);
        LowerKeepsSpace(stripped[|stripped| - 1]);
        Some(Lower(stripped))
  }

  /** A value that neither starts nor ends with whitespace is only
      lower-cased. */
  lemma NormalizeTrimmed(s: string)
    requires s != [] && !IsSpace(s[0]) && !IsSpace(s[|s| - 1])
    ensures NormalizeEmail(Some(s)) == Some(Lower(s))
  {
    StripCharsUnchanged(s, IsSpace);
  }

  /** Lower-casing never turns a space into a non-space or back. */
  lemma LowerKeepsSpace(c: char)
    ensures IsSpace(LowerChar(c)) == IsSpace(c)
  {
  }

  /** Lower-casing twice is lower-casing once. */
  lemma LowerIdempotent(s: string)
    ensures Lower(Lower(s)) == Lower(s)
  {
  }

  /** Stripping a string that does not start or end with a selected character
      gives the string back. */
  lemma {:induction false} StripCharsUnchanged(s: string, strip: char -> bool)
    requires s != [] ==> !strip(s[0]) && !strip(s[|s| - 1])
    ensures StripChars(s, strip) == s
  {
    if s != [] {
      StripCharsIs(s, strip, 0, |s|);
      assert s[0..|s|] == s;
    }
  }

  /** Every value `normalize_email` returns is a fixed point of it, so values
      from the allow-list and values read from entries meet in one canonical
      form. */
  lemma {:induction false} NormalizeIdempotent(value: Option<string>)
    ensures NormalizeEmail(value).Some? ==> NormalizeEmail(NormalizeEmail(value)) == NormalizeEmail(value)
  {
    var n := NormalizeEmail(value);
    if n.Some? {
      var stripped := Strip(value.value);
      StripCharsUnchanged(n.value, IsSpace);
      LowerIdempotent(stripped);
    }
  }

  /** Stripping ignores selected characters added on either side. */
  lemma StripCharsPadding(pre: string, s: string, post: string, strip: char -> bool)
    requires forall k :: 0 <= k < |pre| ==> strip(pre[k])
    requires forall k :: 0 <= k < |post| ==> strip(post[k])
    ensures StripChars(pre + s + post, strip) == StripChars(s, strip)
  {
    if StripChars(s, strip) == [] {
      StripCharsPaddingAll(pre, s, post, strip);
    } else {
      StripCharsPaddingSome(pre, s, post, strip);
    }
  }

  lemma StripCharsPaddingAll(pre: string, s: string, post: string, strip: char -> bool)
    requires forall k :: 0 <= k < |pre| ==> strip(pre[k])
    requires forall k :: 0 <= k < |post| ==> strip(post[k])
    requires forall k :: 0 <= k < |s| ==> strip(s[k])
    ensures StripChars(pre + s + post, strip) == []
  {
    AllSelectedAppend(pre, s, strip);
    AllSelectedAppend(pre + s, post, strip);
  }

  /** Two strings made only of selected characters make one when joined. */
  lemma AllSelectedAppend(a: string, b: string, strip: char -> bool)
    requires forall k :: 0 <= k < |a| ==> strip(a[k])
    requires forall k :: 0 <= k < |b| ==> strip(b[k])
    ensures forall k :: 0 <= k < |a + b| ==> strip((a + b)[k])
  {
    forall k | |a| <= k < |a + b| ensures strip((a + b)[k]) {
      assert (a + b)[k] == b[k - |a|];
    }
  }

  lemma StripCharsPaddingSome(pre: string, s: string, post: string, strip: char -> bool)
    requires forall k :: 0 <= k < |pre| ==> strip(pre[k])
    requires forall k :: 0 <= k < |post| ==> strip(post[k])
    requires StripChars(s, strip) != []
    ensures StripChars(pre + s + post, strip) == StripChars(s, strip)
  {
    var i, j := StripCharsWindow(s, strip);
    PaddedStrip(pre, s, post, strip, i, j);
  }

  /** Padding a string whose stripped part is `s[lo..hi]` with selected
      characters leaves the same part. */
  lemma PaddedStrip(pre: string, s: string, post: string, strip: char -> bool, lo: nat, hi: nat)
    requires forall k :: 0 <= k < |pre| ==> strip(pre[k])
    requires forall k :: 0 <= k < |post| ==> strip(post[k])
    requires lo < hi <= |s|
    requires forall k :: 0 <= k < lo ==> strip(s[k])
    requires forall k :: hi <= k < |s| ==> strip(s[k])
    requires !strip(s[lo]) && !strip(s[hi - 1])
    ensures StripChars(pre + s + post, strip) == s[lo..hi]
  {
    var x := pre + s + post;
    PaddedAround(pre, s, post, strip, lo, hi);
    StripCharsIs(x, strip, |pre| + lo, |pre| + hi);
  }

  /** Where `StripChars` cuts a string that is not entirely selected. */
  lemma StripCharsWindow(s: string, strip: char -> bool) returns (lo: nat, hi: nat)
    requires StripChars(s, strip) != []
    ensures lo < hi <= |s| && StripChars(s, strip) == s[lo..hi]
    ensures forall k :: 0 <= k < lo ==> strip(s[k])
    ensures forall k :: hi <= k < |s| ==> strip(s[k])
    ensures !strip(s[lo]) && !strip(s[hi - 1])
  {
    lo := SkipForward(s, strip, 0);
    hi := SkipBackward(s, strip, lo, |s|);
  }

  /** Padding with selected characters on both sides of a stretch of `s`
      that is surrounded by selected characters. */
  lemma PaddedAround(pre: string, s: string, post: string, strip: char -> bool, lo: nat, hi: nat)
    requires forall k :: 0 <= k < |pre| ==> strip(pre[k])
    requires forall k :: 0 <= k < |post| ==> strip(post[k])
    requires lo < hi <= |s|
    requires forall k :: 0 <= k < lo ==> strip(s[k])
    requires forall k :: hi <= k < |s| ==> strip(s[k])
    requires !strip(s[lo]) && !strip(s[hi - 1])
    ensures var x := pre + s + post;
            && (forall k :: 0 <= k < |pre| + lo ==> strip(x[k]))
            && (forall k :: |pre| + hi <= k < |x| ==> strip(x[k]))
            && !strip(x[|pre| + lo]) && !strip(x[|pre| + hi - 1])
            && x[|pre| + lo..|pre| + hi] == s[lo..hi]
  {
    var x := pre + s + post;
    forall k | 0 <= k < |pre| + lo ensures strip(x[k]) {
      if k >= |pre| {
        assert x[k] == s[k - |pre|];
      }
    }
    forall k | |pre| + hi <= k < |x| ensures strip(x[k]) {
      if k < |pre| + |s| {
        assert x[k] == s[k - |pre|];
      } else {
        assert x[k] == post[k - |pre| - |s|];
      }
    }
    assert x[|pre| + lo] == s[lo] && x[|pre| + hi - 1] == s[hi - 1];
  }

  /** `StripChars` keeps exactly the slice `s[lo..hi]` when everything around
      it is selected and its ends are not. */
  lemma StripCharsIs(s: string, strip: char -> bool, lo: nat, hi: nat)
    requires lo < hi <= |s|
    requires forall k :: 0 <= k < lo ==> strip(s[k])
    requires forall k :: hi <= k < |s| ==> strip(s[k])
    requires !strip(s[lo]) && !strip(s[hi - 1])
    ensures StripChars(s, strip) == s[lo..hi]
  {
    SkipForwardIs(s, strip, 0, lo);
    SkipBackwardIs(s, strip, lo, |s|, hi);
  }

  /** Padding a value with whitespace on either side does not change what it
      normalises to. */
  lemma {:induction false} NormalizeIgnoresPadding(pre: string, s: string, post: string)
    requires forall k :: 0 <= k < |pre| ==> IsSpace(pre[k])
    requires forall k :: 0 <= k < |post| ==> IsSpace(post[k])
    ensures NormalizeEmail(Some(pre + s + post)) == NormalizeEmail(Some(s))
  {
    StripCharsPadding(pre, s, post, IsSpace);
    if s == "" {
      assert Strip(s) == "";
    }
  }

  /** Two values that agree after lower-casing normalise to the same thing:
      matching is case-insensitive. */
  lemma {:induction false} NormalizeIgnoresCase(s: string, s': string)
    requires Lower(s) == Lower(s')
    ensures NormalizeEmail(Some(s)) == NormalizeEmail(Some(s'))
  {
    LowerSameSpaces(s, s');
    var lo, hi := StripSameSpaces(s, s');
    LowerSlice(s, lo, hi);
    LowerSlice(s', lo, hi);
  }

  /** Strings that agree after lower-casing have whitespace at the same
      positions. */
  lemma LowerSameSpaces(s: string, s': string)
    requires Lower(s) == Lower(s')
    ensures |s| == |s'|
    ensures forall k :: 0 <= k < |s| ==> IsSpace(s[k]) == IsSpace(s'[k])
  {
    assert |s| == |Lower(s)| == |s'|;
    forall k | 0 <= k < |s| ensures IsSpace(s[k]) == IsSpace(s'[k]) {
      assert Lower(s)[k] == Lower(s')[k];
      LowerKeepsSpace(s[k]);
      LowerKeepsSpace(s'[k]);
    }
  }

  /** Strings with whitespace at the same positions are stripped at the same
      positions. */
  lemma StripSameSpaces(s: string, s': string) returns (lo: nat, hi: nat)
    requires |s| == |s'|
    requires forall k :: 0 <= k < |s| ==> IsSpace(s[k]) == IsSpace(s'[k])
    ensures lo <= hi <= |s| && Strip(s) == s[lo..hi] && Strip(s') == s'[lo..hi]
  {
    lo := SkipForward(s, IsSpace, 0);
    SkipForwardIs(s', IsSpace, 0, lo);
    hi := SkipBackward(s, IsSpace, lo, |s|);
    SkipBackwardIs(s', IsSpace, lo, |s|, hi);
  }

  /** Lower-casing works character by character, so it commutes with slicing. */
  lemma LowerSlice(s: string, lo: nat, hi: nat)
    requires lo <= hi <= |s|
    ensures Lower(s[lo..hi]) == Lower(s)[lo..hi]
  {
  }
}
