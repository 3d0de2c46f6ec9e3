/**
 The final step of the sanitiser: Go's `strings.TrimSpace`, which removes
 leading and trailing characters for which `unicode.IsSpace` holds.
 */
module Whitespace {
  import opened Subsequences

  /** Go's `unicode.IsSpace`: in the Latin-1 range the characters
      '\t', '\n', '\v', '\f', '\r', ' ', U+0085 and U+00A0; above it the
      characters with the Unicode White_Space property. */
  predicate IsSpace(c: char) {
    if c <= '\U{FF}' then
      ('\t' <= c <= '\r') || c == ' ' || c == '\U{85}' || c == '\U{A0}'
    else
      c == '\U{1680}' || ('\U{2000}' <= c <= '\U{200A}') || c == '\U{2028}' || c == '\U{2029}'
      || c == '\U{202F}' || c == '\U{205F}' || c == '\U{3000}'
  }

  /** On ASCII, `unicode.IsSpace` agrees with the byte table that
      `strings.TrimSpace` consults first: tab, newline, vertical tab, form
      feed, carriage return and space. */
  lemma AsciiSpace(c: char)
    requires c < '\U{80}'
    ensures IsSpace(c) <==> c == '\t' || c == '\n' || c == '\U{0B}' || c == '\U{0C}' || c == '\r' || c == ' '
  {
  }

  /** Every character of `s` is white space. */
  predicate AllSpace(s: string) {
    forall i :: 0 <= i < |s| ==> IsSpace(s[i])
  }

  /** `s` neither starts nor ends with white space. */
  predicate NoOuterSpace(s: string) {
    |s| == 0 || (!IsSpace(s[0]) && !IsSpace(s[|s| - 1]))
  }

  /** Drop the leading white space: the result is the longest suffix of `s`
      that does not start with white space, and everything dropped is white space. */
  function TrimLeft(s: string): (r: string)
    ensures |r| <= |s| && r == s[|s| - |r|..]
    ensures AllSpace(s[..|s| - |r|])
    ensures |r| == 0 || !IsSpace(r[0])
    decreases |s|
  {
    if |s| > 0 && IsSpace(s[0]) then
      var r := TrimLeft(s[1..]);
      TrimLeftStep(s, r);
      r
    else s
  }

  /** One more leading space: what the tail drops, plus the first character. */
  lemma TrimLeftStep(s: string, r: string)
    requires |s| > 0 && IsSpace(s[0])
    requires |r| <= |s| - 1 && r == s[1..][|s| - 1 - |r|..]
    requires AllSpace(s[1..][..|s| - 1 - |r|])
    ensures r == s[|s| - |r|..]
    ensures AllSpace(s[..|s| - |r|])
  {
    var n := |s| - |r|;
    assert s[1..][n - 1..] == s[n..];
    forall k | 0 <= k < n ensures IsSpace(s[..n][k]) {
      if k > 0 {
        assert s[..n][k] == s[1..][..n - 1][k - 1];
      }
    }
  }

  /** Drop the trailing white space: the result is the longest prefix of `s`
      that does not end with white space, and everything dropped is white space. */
  function TrimRight(s: string): (r: string)
    ensures |r| <= |s| && r == s[..|r|]
    ensures AllSpace(s[|r|..])
    ensures |r| == 0 || !IsSpace(r[|r| - 1])
    decreases |s|
  {
    if |s| > 0 && IsSpace(s[|s| - 1]) then
      var r := TrimRight(s[..|s| - 1]);
      TrimRightStep(s, r);
      r
    else s
  }

  /** One more trailing space: what the front part drops, plus the last character. */
  lemma TrimRightStep(s: string, r: string)
    requires |s| > 0 && IsSpace(s[|s| - 1])
    requires |r| <= |s| - 1 && r == s[..|s| - 1][..|r|]
    requires AllSpace(s[..|s| - 1][|r|..])
    ensures r == s[..|r|]
    ensures AllSpace(s[|r|..])
  {
    var m := |r|;
    assert s[..|s| - 1][..m] == s[..m];
    forall k | 0 <= k < |s| - m ensures IsSpace(s[m..][k]) {
      if k < |s| - 1 - m {
        assert s[m..][k] == s[..|s| - 1][m..][k];
      }
    }
  }

  /** Go's `strings.TrimSpace`. */
  function TrimSpace(s: string): (r: string)
    ensures NoOuterSpace(r)
    ensures |r| <= |s|
  {
    TrimRight(TrimLeft(s))
  }

  /** Trimming keeps a contiguous piece of its input, so a subsequence. */
  lemma TrimSpaceSubseq(s: string)
    ensures IsSubseq(TrimSpace(s), s)
  {
    var l := TrimLeft(s);
    var r := TrimRight(l);
    SubseqSlice(l, 0, |r|);
    assert l[0..|r|] == r;
    SubseqSlice(s, |s| - |l|, |s|);
    assert s[|s| - |l|..|s|] == l;
    SubseqTrans(r, l, s);
  }

  /** Trimming deletes nothing but white space: erasing white space from the
      trimmed text and from the input gives the same text. */
  lemma TrimSpaceErase(s: string)
    ensures Erase(TrimSpace(s), IsSpace) == Erase(s, IsSpace)
  {
    TrimLeftErase(s);
    TrimRightErase(TrimLeft(s));
  }

  /** Dropping leading white space keeps the text outside white space. */
  lemma TrimLeftErase(s: string)
    ensures Erase(TrimLeft(s), IsSpace) == Erase(s, IsSpace)
  {
    var l := TrimLeft(s);
    var p := s[..|s| - |l|];
    assert s == p + l;
    EraseConcat(p, l, IsSpace);
    EraseAllDropped(p, IsSpace);
  }

  /** Dropping trailing white space keeps the text outside white space. */
  lemma TrimRightErase(s: string)
    ensures Erase(TrimRight(s), IsSpace) == Erase(s, IsSpace)
  {
    var r := TrimRight(s);
    var q := s[|r|..];
    assert s == r + q;
    EraseConcat(r, q, IsSpace);
    EraseAllDropped(q, IsSpace);
  }

  /** The trimmed text is determined by where the outer white space ends: if
      `s` is white space up to `i`, white space from `j`, and `s[i..j]` has no
      outer white space, then trimming returns exactly `s[i..j]`. */
  lemma TrimSpaceUnique(s: string, i: nat, j: nat)
    requires i <= j <= |s|
    requires AllSpace(s[..i]) && AllSpace(s[j..])
    requires NoOuterSpace(s[i..j])
    ensures TrimSpace(s) == s[i..j]
  {
    if i < j {
      assert s[i..j][0] == s[i] && s[i..j][j - i - 1] == s[j - 1];
      TrimSpaceMiddle(s, i, j);
    } else {
      TrimLeftAllSpace(s, i, j);
    }
  }

  /** Trimming stops at the first and the last non-space character. */
  lemma TrimSpaceMiddle(s: string, i: nat, j: nat)
    requires i < j <= |s|
    requires AllSpace(s[..i]) && AllSpace(s[j..])
    requires !IsSpace(s[i]) && !IsSpace(s[j - 1])
    ensures TrimSpace(s) == s[i..j]
  {
    TrimLeftStopsAt(s, i);
    TrimRightOfSuffix(s, i, j);
  }

  /** Trimming the right of the suffix `s[i..]` when the last non-space
      character of `s` is at `j - 1`. */
  lemma TrimRightOfSuffix(s: string, i: nat, j: nat)
    requires i < j <= |s|
    requires AllSpace(s[j..]) && !IsSpace(s[j - 1])
    ensures TrimRight(s[i..]) == s[i..j]
  {
    var l := s[i..];
    SliceOfSuffix(s, l, i, j);
    TrimRightStopsAt(l, j - i);
  }

  /** The pieces of the suffix `s[i..]` around position `j`, as pieces of `s`. */
  lemma SliceOfSuffix(s: string, l: string, i: nat, j: nat)
    requires i < j <= |s| && l == s[i..]
    ensures l[..j - i] == s[i..j] && l[j - i..] == s[j..] && l[j - i - 1] == s[j - 1]
  {
  }

  /** Trimming the left of a string whose first non-space character is at `i`. */
  lemma {:induction false} TrimLeftStopsAt(s: string, i: nat)
    requires i < |s|
    requires AllSpace(s[..i]) && !IsSpace(s[i])
    ensures TrimLeft(s) == s[i..]
    decreases i
  {
    if i > 0 {
      assert s[..i][0] == s[0];
      var p := s[1..][..i - 1];
      forall k | 0 <= k < |p| ensures IsSpace(p[k]) {
        assert p[k] == s[..i][k + 1];
      }
      TrimLeftStopsAt(s[1..], i - 1);
      assert s[1..][i - 1..] == s[i..];
    }
  }

  /** Trimming the right of a string whose last non-space character is at `j - 1`. */
  lemma {:induction false} TrimRightStopsAt(s: string, j: nat)
    requires 0 < j <= |s|
    requires AllSpace(s[j..]) && !IsSpace(s[j - 1])
    ensures TrimRight(s) == s[..j]
    decreases |s| - j
  {
    if j < |s| {
      assert s[j..][|s| - 1 - j] == s[|s| - 1];
      var t := s[..|s| - 1];
      assert forall k :: 0 <= k < |t| - j ==> t[j..][k] == s[j..][k];
      TrimRightStopsAt(t, j);
      assert t[..j] == s[..j];
    }
  }

  /** A string that is white space except for an empty middle trims to empty. */
  lemma TrimLeftAllSpace(s: string, i: nat, j: nat)
    requires i == j <= |s|
    requires AllSpace(s[..i]) && AllSpace(s[j..])
    ensures TrimSpace(s) == []
  {
    assert AllSpace(s) by {
      forall k | 0 <= k < |s| ensures IsSpace(s[k]) {
        if k < i {
          assert s[..i][k] == s[k];
        } else {
          assert s[j..][k - j] == s[k];
        }
      }
    }
  }

  /** A string without outer white space is left unchanged by trimming. */
  lemma TrimSpaceFixed(s: string)
    requires NoOuterSpace(s)
    ensures TrimSpace(s) == s
  {
    TrimSpaceUnique(s, 0, |s|);
  }

  /** Trimming changes a string exactly when it has outer white space, and
      then it makes it strictly shorter. */
  lemma TrimSpaceFixedIffNoOuterSpace(s: string)
    ensures TrimSpace(s) == s <==> NoOuterSpace(s)
    ensures !NoOuterSpace(s) ==> |TrimSpace(s)| < |s|
  {
    if NoOuterSpace(s) {
      TrimSpaceFixed(s);
    }
  }
}
