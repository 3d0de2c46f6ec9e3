/**
 The "only deletes characters" relation on strings. Every step of the response
 sanitiser removes characters and never inserts or reorders any, so its output
 is a subsequence of its input; this module defines that relation and the
 facts the sanitiser proofs chain together.
 */
module Subsequences {

  /** True iff `a` is obtained from `b` by deleting zero or more characters
      (the greedy left-to-right embedding of `a` into `b`). */
  predicate IsSubseq(a: string, b: string)
    decreases |b|
  {
    if |a| == 0 then true
    else if |b| == 0 then false
    else if a[0] == b[0] then IsSubseq(a[1..], b[1..])
    else IsSubseq(a, b[1..])
  }

  /** Deleting characters never makes a string longer. */
  lemma {:induction false} SubseqLength(a: string, b: string)
    requires IsSubseq(a, b)
    ensures |a| <= |b|
    decreases |b|
  {
    if |a| != 0 {
      if a[0] == b[0] {
        SubseqLength(a[1..], b[1..]);
      } else {
        SubseqLength(a, b[1..]);
      }
    }
  }

  /** A subsequence as long as its source is the source itself. */
  lemma {:induction false} SubseqSameLength(a: string, b: string)
    requires IsSubseq(a, b)
    requires |a| == |b|
    ensures a == b
    decreases |b|
  {
    if |a| != 0 {
      if a[0] == b[0] {
        SubseqSameLength(a[1..], b[1..]);
      } else {
        SubseqLength(a, b[1..]);
      }
    }
  }

  /** Every character of a subsequence occurs in its source. */
  lemma {:induction false} SubseqChars(a: string, b: string)
    requires IsSubseq(a, b)
    ensures forall c :: c in a ==> c in b
    decreases |b|
  {
    if |a| != 0 {
      if a[0] == b[0] {
        SubseqChars(a[1..], b[1..]);
        forall c | c in a ensures c in b {
          if c != a[0] {
            assert c in a[1..];
          }
        }
      } else {
        SubseqChars(a, b[1..]);
      }
    }
  }

  /** Every string is a subsequence of itself (nothing deleted). */
  lemma {:induction false} SubseqRefl(s: string)
    ensures IsSubseq(s, s)
    decreases |s|
  {
    if |s| != 0 {
      SubseqRefl(s[1..]);
    }
  }

  /** Dropping the first character of a subsequence keeps it a subsequence. */
  lemma {:induction false} SubseqDropHead(a: string, b: string)
    requires |a| > 0
    requires IsSubseq(a, b)
    ensures IsSubseq(a[1..], b)
    decreases |b|
  {
    if a[0] != b[0] {
      SubseqDropHead(a, b[1..]);
    }
    // now IsSubseq(a[1..], b[1..]) holds; add b[0] back in front
    if |a| > 1 && a[1] == b[0] {
      SubseqDropHead(a[1..], b[1..]);
      assert a[1..][1..] == a[2..];
    }
  }

  /** Putting characters in front of the source keeps a subsequence a subsequence. */
  lemma {:induction false} SubseqExtend(a: string, b: string, x: string)
    requires IsSubseq(a, b)
    ensures IsSubseq(a, x + b)
    decreases |x|
  {
    if |x| != 0 {
      SubseqExtend(a, b, x[1..]);
      var xb := x + b;
      assert xb[0] == x[0] && xb[1..] == x[1..] + b;
      if |a| != 0 && a[0] == x[0] {
        SubseqDropHead(a, x[1..] + b);
      }
    } else {
      assert x + b == b;
    }
  }

  /** Subsequences concatenate: deletions in two pieces are a deletion in the whole. */
  lemma {:induction false} SubseqConcat(a: string, b: string, c: string, d: string)
    requires IsSubseq(a, b)
    requires IsSubseq(c, d)
    ensures IsSubseq(a + c, b + d)
    decreases |b|
  {
    if |a| == 0 {
      assert a + c == c;
      SubseqExtend(c, d, b);
    } else {
      assert (b + d)[1..] == b[1..] + d;
      if a[0] == b[0] {
        SubseqConcat(a[1..], b[1..], c, d);
        assert (a + c)[1..] == a[1..] + c;
      } else {
        SubseqConcat(a, b[1..], c, d);
      }
    }
  }

  /** Deletion composes: a subsequence of a subsequence is a subsequence. */
  lemma {:induction false} SubseqTrans(a: string, b: string, c: string)
    requires IsSubseq(a, b)
    requires IsSubseq(b, c)
    ensures IsSubseq(a, c)
    decreases |c|
  {
    if |a| != 0 {
      SubseqLength(a, b);
      SubseqLength(b, c);
      if b[0] == c[0] {
        if a[0] == b[0] {
          SubseqTrans(a[1..], b[1..], c[1..]);
        } else {
          SubseqTrans(a, b[1..], c[1..]);
        }
      } else {
        SubseqTrans(a, b, c[1..]);
        if a[0] == c[0] {
          SubseqDropHead(a, c[1..]);
        }
      }
    }
  }

  /** A contiguous slice is a subsequence of the whole string. */
  lemma SubseqSlice(s: string, i: nat, j: nat)
    requires i <= j <= |s|
    ensures IsSubseq(s[i..j], s)
  {
    SubseqRefl(s[i..j]);
    SubseqExtend(s[i..j], s[i..j], s[..i]);
    assert s[..i] + s[i..j] + s[j..] == s;
    SubseqConcat(s[i..j], s[..i] + s[i..j], [], s[j..]);
    assert s[i..j] + [] == s[i..j];
  }

  /** `s` with every character for which `drop` holds deleted and the other
      characters kept in order: the part of a string that a deletion of
      `drop` characters must leave intact. */
  function Erase(s: string, drop: char -> bool): (r: string)
    ensures forall i :: 0 <= i < |r| ==> !drop(r[i])
    decreases |s|
  {
    if |s| == 0 then []
    else if drop(s[0]) then Erase(s[1..], drop)
    else [s[0]] + Erase(s[1..], drop)
  }

  /** Erasure works character by character, so it distributes over concatenation. */
  lemma {:induction false} EraseConcat(a: string, b: string, drop: char -> bool)
    ensures Erase(a + b, drop) == Erase(a, drop) + Erase(b, drop)
    decreases |a|
  {
    if |a| == 0 {
      assert a + b == b;
    } else {
      EraseConcat(a[1..], b, drop);
      assert (a + b)[0] == a[0];
      assert (a + b)[1..] == a[1..] + b;
    }
  }

  /** A string made only of erased characters erases to nothing. */
  lemma {:induction false} EraseAllDropped(s: string, drop: char -> bool)
    requires forall i :: 0 <= i < |s| ==> drop(s[i])
    ensures Erase(s, drop) == []
    decreases |s|
  {
    if |s| > 0 {
      assert forall i :: 0 <= i < |s| - 1 ==> s[1..][i] == s[i + 1];
      EraseAllDropped(s[1..], drop);
    }
  }

  /** Erasing a smaller class first and then a larger one is erasing the larger one. */
  lemma {:induction false} EraseTwice(s: string, small: char -> bool, large: char -> bool)
    requires forall c :: small(c) ==> large(c)
    ensures Erase(Erase(s, small), large) == Erase(s, large)
    decreases |s|
  {
    if |s| > 0 {
      EraseTwice(s[1..], small, large);
      if !small(s[0]) {
        assert ([s[0]] + Erase(s[1..], small))[1..] == Erase(s[1..], small);
      }
    }
  }

  /** Two strings that agree once a small class is erased still agree once a
      larger class is erased. */
  lemma EraseAgreeLarger(a: string, b: string, small: char -> bool, large: char -> bool)
    requires forall c :: small(c) ==> large(c)
    requires Erase(a, small) == Erase(b, small)
    ensures Erase(a, large) == Erase(b, large)
  {
    EraseTwice(a, small, large);
    EraseTwice(b, small, large);
  }
}
