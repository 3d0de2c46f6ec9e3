/**
 The markup-symbol step of the sanitiser: Go's
 `regexp.MustCompile("[&{}#\\[\\]\\*]+").ReplaceAllString(s, "")`. The regular
 expression matches one or more characters of the class `& { } # [ ] *`;
 `ReplaceAllString` takes the leftmost match, which the greedy `+` stretches
 over the whole run of class characters, deletes it, and continues after it.
 */
module Symbols {
  import opened Subsequences

  /** The character class of the regular expression: `&`, `{`, `}`, `#`, `[`, `]`, `*`. */
  predicate IsSymbol(c: char) {
    c == '&' || c == '{' || c == '}' || c == '#' || c == '[' || c == ']' || c == '*'
  }

  /** No character of the class occurs in `s`. */
  predicate NoSymbols(s: string) {
    forall i :: 0 <= i < |s| ==> !IsSymbol(s[i])
  }

  /** Length of the leftmost-greedy match at the start of `s`: the maximal run
      of class characters there (0 when `s` does not start with one). */
  function RunLength(s: string): (n: nat)
    ensures n <= |s|
    ensures forall i :: 0 <= i < n ==> IsSymbol(s[i])
    ensures n < |s| ==> !IsSymbol(s[n])
    decreases |s|
  {
    if |s| > 0 && IsSymbol(s[0]) then 1 + RunLength(s[1..]) else 0
  }

  /** The regular-expression pass: every maximal run of class characters is
      deleted as one match; other characters are copied. */
  function StripRuns(s: string): (r: string)
    ensures NoSymbols(r)
    ensures |r| <= |s|
    decreases |s|
  {
    if |s| == 0 then []
    else if IsSymbol(s[0]) then StripRuns(s[RunLength(s)..])
    else [s[0]] + StripRuns(s[1..])
  }

  /** Reference definition: drop each class character on its own and keep
      every other character in order. */
  function Filter(s: string): (r: string)
    ensures NoSymbols(r)
  {
    Erase(s, IsSymbol)
  }

  /** The filter keeps exactly the characters outside the class. */
  lemma {:induction false} FilterMembers(s: string)
    ensures forall c :: c in Filter(s) <==> c in s && !IsSymbol(c)
    decreases |s|
  {
    if |s| > 0 {
      FilterMembers(s[1..]);
      assert forall c :: c in s <==> c == s[0] || c in s[1..];
    }
  }

  /** Filtering distributes over concatenation: characters are judged one by
      one, independently of their neighbours. */
  lemma FilterConcat(a: string, b: string)
    ensures Filter(a + b) == Filter(a) + Filter(b)
  {
    EraseConcat(a, b, IsSymbol);
  }

  /** Skipping a prefix made of class characters does not change the filter. */
  lemma {:induction false} FilterSkipsSymbols(s: string, k: nat)
    requires k <= |s|
    requires forall i :: 0 <= i < k ==> IsSymbol(s[i])
    ensures Filter(s) == Filter(s[k..])
    decreases k
  {
    if k > 0 {
      FilterSkipsSymbols(s[1..], k - 1);
      assert s[1..][k - 1..] == s[k..];
    }
  }

  /** Deleting maximal runs as units removes exactly the same characters as
      deleting class characters one at a time. */
  lemma {:induction false} StripRunsIsFilter(s: string)
    ensures StripRuns(s) == Filter(s)
    decreases |s|
  {
    if |s| > 0 {
      if IsSymbol(s[0]) {
        var n := RunLength(s);
        FilterSkipsSymbols(s, n);
        StripRunsIsFilter(s[n..]);
      } else {
        StripRunsIsFilter(s[1..]);
      }
    }
  }

  /** The filter keeps a subsequence of its input. */
  lemma {:induction false} FilterSubseq(s: string)
    ensures IsSubseq(Filter(s), s)
    decreases |s|
  {
    if |s| > 0 {
      FilterSubseq(s[1..]);
      if IsSymbol(s[0]) {
        SubseqExtend(Filter(s[1..]), s[1..], [s[0]]);
      } else {
        SubseqRefl([s[0]]);
        SubseqConcat([s[0]], [s[0]], Filter(s[1..]), s[1..]);
      }
      assert [s[0]] + s[1..] == s;
    }
  }

  /** The filter changes a string exactly when it holds a class character. */
  lemma {:induction false} FilterFixedIffClean(s: string)
    ensures Filter(s) == s <==> NoSymbols(s)
    ensures !NoSymbols(s) ==> |Filter(s)| < |s|
    decreases |s|
  {
    FilterSubseq(s);
    SubseqLength(Filter(s), s);
    if |s| > 0 {
      FilterFixedIffClean(s[1..]);
      if IsSymbol(s[0]) {
        SubseqLength(Filter(s[1..]), s[1..]);
      } else {
        assert NoSymbols(s) <==> NoSymbols(s[1..]) by {
          assert forall i :: 1 <= i < |s| ==> s[i] == s[1..][i - 1];
        }
      }
    }
  }

  /** The regular-expression pass only deletes characters, keeping the rest
      in their original order; it changes the string exactly when the string
      holds a class character, and then it makes it strictly shorter. */
  lemma StripRunsDeletesSymbolsOnly(s: string)
    ensures IsSubseq(StripRuns(s), s)
    ensures StripRuns(s) == s <==> NoSymbols(s)
    ensures !NoSymbols(s) ==> |StripRuns(s)| < |s|
  {
    StripRunsIsFilter(s);
    FilterSubseq(s);
    FilterFixedIffClean(s);
  }

  /** Deleting characters cannot bring a class character back. */
  lemma NoSymbolsSubseq(a: string, b: string)
    requires IsSubseq(a, b)
    requires NoSymbols(b)
    ensures NoSymbols(a)
  {
    SubseqChars(a, b);
    forall i | 0 <= i < |a| ensures !IsSymbol(a[i]) {
      assert a[i] in b;
    }
  }
}
